/** The line codec of the feed protocol (NewsItemMapper): an item travels as
    "headline;priority", one item per line. */
module Codec {
  import opened Wrappers
  import opened JavaLang
  import opened News

  /** The IllegalArgumentException cases of the mapper. */
  datatype CodecError = NullItem | InvalidFormat | InvalidPriority | PriorityOutOfRange {
    /** The start of the exception message, as the mapper words it. */
    function Message(): string {
      match this
      case NullItem => "NewsItem cannot be null"
      case InvalidFormat => "Invalid message format"
      case InvalidPriority => "Invalid priority value in message"
      case PriorityOutOfRange => "Priority must be between 0 and 9"
    }
  }

  const MinPriority: int := 0
  const MaxPriority: int := 9

  /** Encodes an item as its headline, the separator and its priority in
      Integer.toString's canonical decimal form, which parseInt reads back; a
      null item is refused with the mapper's "NewsItem cannot be null". */
  function ToString(item: Option<NewsItem>): (r: Result<string, CodecError>)
    ensures item.None? <==> r == Failure(NullItem)
    ensures item.None? ==> r.error.Message() == "NewsItem cannot be null"
    ensures item.Some? ==> r.Success?
    ensures item.Some? ==>
              var h := item.value.headline;
              |r.value| > |h| && r.value[..|h|] == h && r.value[|h|] == Separator
              && r.value[|h| + 1..] == IntToString(item.value.priority)
              && ParseInt(r.value[|h| + 1..]) == Some(item.value.priority)
  {
    match item
    case None => Failure(NullItem)
    case Some(it) =>
      var line := it.headline + [Separator] + IntToString(it.priority);
      ParseIntToString(it.priority);
      assert line[|it.headline| + 1..] == IntToString(it.priority);
      Success(line)
  }

  /** Decodes one line. A null line, a line without the separator, or one that
      Java's split does not cut into exactly two fields is malformed; then the
      trimmed second field must parse as an int, and that int must lie in
      [0, 9]. A decoded item has a trimmed headline free of the separator. */
  function FromString(message: Option<string>): (r: Result<NewsItem, CodecError>)
    ensures r != Failure(NullItem)
    ensures message.None? || Separator !in message.value ==> r == Failure(InvalidFormat)
    ensures message.None? ==> r.error.Message() == "Invalid message format"
    ensures r.Success? ==>
              && MinPriority <= r.value.priority <= MaxPriority
              && IsTrimmed(r.value.headline)
              && Separator !in r.value.headline
  {
    if message.None? || Separator !in message.value then Failure(InvalidFormat)
    else
      var parts := Split(message.value, Separator);
      if |parts| != 2 then Failure(InvalidFormat)
      else
        match ParseInt(Trim(parts[1]))
        case None => Failure(InvalidPriority)
        case Some(priority) =>
          if priority < MinPriority || priority > MaxPriority then Failure(PriorityOutOfRange)
          else
            SplitAllPieces(message.value, {Separator});
            DropTrailingEmptyPrefix(SplitAll(message.value, {Separator}));
            assert Avoids(parts[0], {Separator});
            Success(NewsItem(Trim(parts[0]), priority))
  }

  /** A line made of a field a, the separator, a non-empty field b and any
      number of further separators: exactly the lines Java's split cuts into
      the two fields a and b. */
  predicate IsTwoFieldLine(line: string, a: string, b: string, t: string) {
    && line == a + [Separator] + b + t
    && Separator !in a && Separator !in b && b != "" && AllChar(t, Separator)
  }

  /** Decoding a two-field line: the priority is the trimmed second field,
      which must parse and lie in [0, 9]; the headline is the trimmed first
      field. */
  lemma DecodeTwoFields(line: string, a: string, b: string, t: string)
    requires IsTwoFieldLine(line, a, b, t)
    ensures FromString(Some(line)) ==
              match ParseInt(Trim(b))
              case None => Failure(InvalidPriority)
              case Some(p) =>
                if p < MinPriority || p > MaxPriority then Failure(PriorityOutOfRange)
                else Success(NewsItem(Trim(a), p))
  {
    TwoFieldsSplit(a, b, t, Separator);
    assert line[|a|] == Separator;
  }

  /** Every line that is not rejected as malformed is a two-field line. */
  lemma DecodeShape(line: string) returns (a: string, b: string, t: string)
    requires FromString(Some(line)) != Failure(InvalidFormat)
    ensures IsTwoFieldLine(line, a, b, t)
  {
    a, b, t := TwoFieldsShape(line, Separator);
  }

  /** Decoding an encoded item gives the item back when its priority is in
      [0, 9], and a range error otherwise, provided its headline is trimmed and
      free of the separator. */
  lemma RoundTrip(item: NewsItem)
    requires IsTrimmed(item.headline) && Separator !in item.headline
    ensures ToString(Some(item)).Success?
    ensures FromString(Some(ToString(Some(item)).value)) ==
              if MinPriority <= item.priority <= MaxPriority then Success(item)
              else Failure(PriorityOutOfRange)
  {
    var digits := IntToString(item.priority);
    var line := ToString(Some(item)).value;
    assert IsTrimmed(digits) && Separator !in digits;
    assert IsTwoFieldLine(line, item.headline, digits, "");
    DecodeTwoFields(line, item.headline, digits, "");
    ParseIntToString(item.priority);
  }

  /** Separators after an encoded line change nothing: Java's split drops
      the trailing empty fields they create. */
  lemma TrailingSeparatorsIgnored(item: NewsItem, t: string)
    requires IsTrimmed(item.headline) && Separator !in item.headline
    requires AllChar(t, Separator)
    ensures ToString(Some(item)).Success?
    ensures FromString(Some(ToString(Some(item)).value + t)) ==
              FromString(Some(ToString(Some(item)).value))
  {
    var digits := IntToString(item.priority);
    var line := item.headline + [Separator] + digits;
    assert ToString(Some(item)).value == line;
    assert Separator !in digits;
    assert IsTwoFieldLine(line + t, item.headline, digits, t);
    assert IsTwoFieldLine(line, item.headline, digits, "") by {
      assert line == line + "";
    }
    DecodeTwoFields(line + t, item.headline, digits, t);
    DecodeTwoFields(line, item.headline, digits, "");
  }

  /** A line whose second field is empty is malformed, however many
      separators follow it: Java's split drops the empty field, leaving one. */
  lemma EmptySecondFieldRejected(a: string, t: string)
    requires Separator !in a && AllChar(t, Separator)
    ensures FromString(Some(a + [Separator] + t)) == Failure(InvalidFormat)
  {
    var line := a + [Separator] + t;
    assert line == a + [Separator] + ("" + t);
    SplitAllAt(a, Separator, "" + t, {Separator});
    SplitAllTail("", t, Separator);
    var parts := SplitAll(line, {Separator});
    assert parts == [a] + ([""] + EmptyStrings(|t|));
    DropTrailingEmptyPrefix(parts);
    assert |DropTrailingEmpty(parts)| < 2;
  }

  /** A line with a non-empty third field is malformed: more than one separator
      is refused unless everything after the second field is separators. */
  lemma ThirdFieldRejected(a: string, b: string, c: char, rest: string)
    requires Separator !in a && Separator !in b && c != Separator
    ensures FromString(Some(a + [Separator] + b + [Separator, c] + rest)) == Failure(InvalidFormat)
  {
    var line := a + [Separator] + b + [Separator, c] + rest;
    assert line == a + [Separator] + (b + [Separator] + ([c] + rest));
    SplitAllAt(a, Separator, b + [Separator] + ([c] + rest), {Separator});
    SplitAllAt(b, Separator, [c] + rest, {Separator});
    var parts := SplitAll(line, {Separator});
    assert ([c] + rest)[1..] == rest;
    assert parts[2] != "";
    DropTrailingEmptyPrefix(parts);
    assert |DropTrailingEmpty(parts)| >= 3;
  }

  // ------------------------------------------------------------- examples

  lemma EncodeExample()
    ensures ToString(Some(NewsItem("up rise success", 5))) == Success("up rise success;5")
  {
    assert NatToString(5) == "5";
    assert IntToString(5) == "5";
    assert "up rise success" + [';'] + "5" == "up rise success;5";
  }

  lemma DecodeExample()
    ensures FromString(Some("up rise success;5")) == Success(NewsItem("up rise success", 5))
  {
    EncodeExample();
    RoundTrip(NewsItem("up rise success", 5));
  }

  /** A missing priority is malformed, even with the separator present. */
  lemma MissingPriorityExample()
    ensures FromString(Some("a;")) == Failure(InvalidFormat)
  {
    EmptySecondFieldRejected("a", "");
    assert "a" + [Separator] + "" == "a;";
  }

  lemma ManySeparatorsExample()
    ensures FromString(Some("up;rise;success;5")) == Failure(InvalidFormat)
  {
    var line := "up;rise;success;5";
    assert line == "up" + [Separator] + "rise" + [Separator, 's'] + "uccess;5" by {
      assert line[..2] == "up" && line[2] == Separator && line[3..7] == "rise";
      assert line[7] == Separator && line[8] == 's' && line[9..] == "uccess;5";
    }
    ThirdFieldRejected("up", "rise", 's', "uccess;5");
  }
}
