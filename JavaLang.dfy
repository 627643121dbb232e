/** The parts of java.lang.String and java.lang.Integer that the news pipeline
    depends on, with Java's exact edge cases: String.trim, String.split (with a
    one-character literal separator, and with the regular expression "\\s+"),
    String.join, Integer.parseInt and Integer.toString. */
module JavaLang {
  import opened Wrappers

  /** Java's 32-bit int. */
  const MinInt32: int := -0x8000_0000
  const MaxInt32: int := 0x7fff_ffff
  type Int32 = x: int | MinInt32 <= x <= MaxInt32

  // ------------------------------------------------------------------ trim

  /** String.trim() strips every character whose code point is at most U+0020. */
  predicate IsTrimSpace(c: char) {
    c <= ' '
  }

  /** s is left unchanged by String.trim(). */
  predicate IsTrimmed(s: string) {
    s == [] || (!IsTrimSpace(s[0]) && !IsTrimSpace(s[|s| - 1]))
  }

  /** s.trim().isEmpty(): every character of s is at most U+0020. */
  predicate IsBlank(s: string) {
    forall i :: 0 <= i < |s| ==> IsTrimSpace(s[i])
  }

  /** How many blank characters s starts with. */
  function LeadingBlanks(s: string): (n: nat)
    ensures n <= |s|
    ensures forall k :: 0 <= k < n ==> IsTrimSpace(s[k])
    ensures n < |s| ==> !IsTrimSpace(s[n])
  {
    if s != [] && IsTrimSpace(s[0]) then
      var n := 1 + LeadingBlanks(s[1..]);
      assert forall k :: 1 <= k < n ==> s[k] == s[1..][k - 1];
      n
    else 0
  }

  /** How many blank characters s ends with. */
  function TrailingBlanks(s: string): (n: nat)
    ensures n <= |s|
    ensures forall k :: |s| - n <= k < |s| ==> IsTrimSpace(s[k])
    ensures n < |s| ==> !IsTrimSpace(s[|s| - 1 - n])
  {
    if s != [] && IsTrimSpace(s[|s| - 1]) then 1 + TrailingBlanks(s[..|s| - 1]) else 0
  }

  /** String.trim(): s without its leading and its trailing blank
      characters, those up to U+0020. The result is the part of s after the
      leading blanks and before a run of blanks at the end, and neither starts
      nor ends with a blank character. It is empty exactly when s is blank,
      and is s itself when s was trimmed. */
  function Trim(s: string): (r: string)
    ensures IsTrimmed(r)
    ensures LeadingBlanks(s) + |r| <= |s| && r == s[LeadingBlanks(s)..LeadingBlanks(s) + |r|]
    ensures forall k :: LeadingBlanks(s) + |r| <= k < |s| ==> IsTrimSpace(s[k])
    ensures forall c :: c in r ==> c in s
    ensures r == [] <==> IsBlank(s)
    ensures IsTrimmed(s) ==> r == s
  {
    var start := LeadingBlanks(s);
    if start == |s| then []
    else
      var end := |s| - TrailingBlanks(s);
      assert start < end;
      s[start..end]
  }

  // ----------------------------------------------------------------- split

  /** No character of s is one of seps. */
  predicate Avoids(s: string, seps: set<char>) {
    forall i :: 0 <= i < |s| ==> s[i] !in seps
  }

  /** Every character of t is c. */
  predicate AllChar(t: string, c: char) {
    forall i :: 0 <= i < |t| ==> t[i] == c
  }

  /** c repeated n times. */
  function Repeat(c: char, n: nat): (t: string)
    ensures |t| == n && AllChar(t, c)
  {
    if n == 0 then [] else [c] + Repeat(c, n - 1)
  }

  /** The pieces of s between single separator characters, every empty piece
      kept: a string with n separators has n + 1 pieces, none of which holds a
      separator. */
  function SplitAll(s: string, seps: set<char>): (parts: seq<string>)
    ensures |parts| >= 1
  {
    if s == [] then [""]
    else
      var rest := SplitAll(s[1..], seps);
      if s[0] in seps then [""] + rest else [[s[0]] + rest[0]] + rest[1..]
  }

  /** No piece of SplitAll holds a separator. */
  lemma {:induction false} SplitAllPieces(s: string, seps: set<char>)
    ensures forall k :: 0 <= k < |SplitAll(s, seps)| ==> Avoids(SplitAll(s, seps)[k], seps)
  {
    if s != [] {
      SplitAllPieces(s[1..], seps);
    }
  }

  /** The last step of String.split with limit 0: trailing empty strings are
      removed. The result is the shortest prefix of parts after which only empty
      strings follow. */
  function DropTrailingEmpty(parts: seq<string>): (r: seq<string>)
    ensures |r| <= |parts|
  {
    if parts == [] || parts[|parts| - 1] != "" then parts
    else DropTrailingEmpty(parts[..|parts| - 1])
  }

  /** DropTrailingEmpty keeps the shortest prefix after which only empty
      strings follow. */
  lemma {:induction false} DropTrailingEmptyPrefix(parts: seq<string>)
    ensures DropTrailingEmpty(parts) == parts[..|DropTrailingEmpty(parts)|]
    ensures DropTrailingEmpty(parts) == [] || DropTrailingEmpty(parts)[|DropTrailingEmpty(parts)| - 1] != ""
    ensures forall k :: |DropTrailingEmpty(parts)| <= k < |parts| ==> parts[k] == ""
  {
    if parts != [] && parts[|parts| - 1] == "" {
      DropTrailingEmptyPrefix(parts[..|parts| - 1]);
    }
  }

  /** s.split(String.valueOf(sep)) for a separator with no meaning in a regular
      expression, such as ";" or " ": a string without the separator is returned
      whole, otherwise its pieces without the trailing empty ones. */
  function Split(s: string, sep: char): (parts: seq<string>)
    ensures forall k :: 0 <= k < |parts| ==> Avoids(parts[k], {sep})
    ensures sep !in s ==> parts == [s]
    ensures sep in s ==>
              && parts <= SplitAll(s, {sep})
              && (parts == [] || parts[|parts| - 1] != "")
              && forall k :: |parts| <= k < |SplitAll(s, {sep})| ==> SplitAll(s, {sep})[k] == ""
  {
    if sep !in s then
      assert Avoids(s, {sep});
      [s]
    else
      SplitAllPieces(s, {sep});
      DropTrailingEmptyPrefix(SplitAll(s, {sep}));
      DropTrailingEmpty(SplitAll(s, {sep}))
  }

  /** The characters the regular-expression class \s matches. */
  const RegexSpace: set<char> := {' ', '\t', '\n', '\U{000B}', '\U{000C}', '\r'}

  /** The non-empty strings of parts, in order. */
  function NonEmpty(parts: seq<string>): seq<string> {
    if parts == [] then []
    else (if parts[0] == "" then [] else [parts[0]]) + NonEmpty(parts[1..])
  }

  /** NonEmpty keeps exactly the non-empty strings. */
  lemma {:induction false} NonEmptyMembers(parts: seq<string>)
    ensures forall k :: 0 <= k < |NonEmpty(parts)| ==> NonEmpty(parts)[k] != "" && NonEmpty(parts)[k] in parts
    ensures forall x :: x in parts && x != "" ==> x in NonEmpty(parts)
  {
    if parts != [] {
      NonEmptyMembers(parts[1..]);
      assert parts == [parts[0]] + parts[1..];
    }
  }

  /** Every character of s is in cs. */
  predicate AllIn(s: string, cs: set<char>) {
    forall i :: 0 <= i < |s| ==> s[i] in cs
  }

  /** The first piece of SplitAll is empty exactly when s starts with a
      separator. */
  lemma SplitAllHead(s: string, seps: set<char>)
    requires s != []
    ensures SplitAll(s, seps)[0] == "" <==> s[0] in seps
  {
  }

  /** SplitAll has no non-empty piece exactly when s is made of separators
      only. */
  lemma {:induction false} NoPieceOfSeparators(s: string, seps: set<char>)
    ensures NonEmpty(SplitAll(s, seps)) == [] <==> AllIn(s, seps)
  {
    if s != [] {
      NoPieceOfSeparators(s[1..], seps);
      var rest := SplitAll(s[1..], seps);
      assert NonEmpty(rest) == (if rest[0] == "" then [] else [rest[0]]) + NonEmpty(rest[1..]);
      if s[0] in seps {
        assert SplitAll(s, seps)[1..] == rest;
      } else {
        assert SplitAll(s, seps)[0] != "";
      }
    }
  }

  /** The words of a string that holds \s: the leading empty word when s
      starts with \s but is not all \s, then the non-empty pieces in order. */
  lemma WhitespaceWords(s: string)
    requires !Avoids(s, RegexSpace)
    ensures var parts := SplitAll(s, RegexSpace);
            DropTrailingEmpty([parts[0]] + NonEmpty(parts[1..]))
            == (if s[0] in RegexSpace && !AllIn(s, RegexSpace) then [""] else []) + NonEmpty(parts)
  {
    var parts := SplitAll(s, RegexSpace);
    var rest := NonEmpty(parts[1..]);
    var listed := [parts[0]] + rest;
    assert NonEmpty(parts) == (if parts[0] == "" then [] else [parts[0]]) + rest;
    SplitAllHead(s, RegexSpace);
    NoPieceOfSeparators(s, RegexSpace);
    if parts[0] != "" || rest != [] {
      NonEmptyMembers(parts[1..]);
      assert listed[|listed| - 1] != "";
    } else {
      assert listed == [""];
      assert DropTrailingEmpty(listed) == DropTrailingEmpty([]);
    }
  }

  /** The words that WhitespaceWords describes hold no \s, only the first of
      them can be empty, and it is empty exactly when s starts with \s but is
      not all \s. */
  lemma WhitespaceWordsShape(s: string, words: seq<string>)
    requires s != []
    requires words == (if s[0] in RegexSpace && !AllIn(s, RegexSpace) then [""] else []) + NonEmpty(SplitAll(s, RegexSpace))
    ensures forall k :: 0 <= k < |words| ==> Avoids(words[k], RegexSpace)
    ensures forall k :: 0 < k < |words| ==> words[k] != ""
    ensures words == [] || words[|words| - 1] != ""
    ensures words != [] && words[0] == "" <==> s[0] in RegexSpace && !AllIn(s, RegexSpace)
  {
    var parts := SplitAll(s, RegexSpace);
    SplitAllPieces(s, RegexSpace);
    NonEmptyMembers(parts);
    NoPieceOfSeparators(s, RegexSpace);
    forall k | 0 <= k < |words|
      ensures Avoids(words[k], RegexSpace)
    {
      if words[k] != "" {
        var m :| 0 <= m < |parts| && parts[m] == words[k];
      }
    }
  }

  /** s.split("\\s+"): s is cut at every maximal run of \s characters. A run at
      the start gives a leading empty word, a run at the end gives nothing, and
      a string without \s is returned whole (so "" gives [""]). */
  function SplitWhitespace(s: string): (words: seq<string>)
    ensures forall k :: 0 <= k < |words| ==> Avoids(words[k], RegexSpace)
    ensures forall k :: 0 < k < |words| ==> words[k] != ""
    ensures Avoids(s, RegexSpace) ==> words == [s]
    ensures !Avoids(s, RegexSpace) ==> words == [] || words[|words| - 1] != ""
    ensures words != [] && words[0] == "" <==> s == [] || (s[0] in RegexSpace && !AllIn(s, RegexSpace))
  {
    if Avoids(s, RegexSpace) then
      assert s != [] ==> s[0] !in RegexSpace;
      [s]
    else
      var parts := SplitAll(s, RegexSpace);
      var words := DropTrailingEmpty([parts[0]] + NonEmpty(parts[1..]));
      assert words == (if s[0] in RegexSpace && !AllIn(s, RegexSpace) then [""] else []) + NonEmpty(parts) by {
        WhitespaceWords(s);
      }
      WhitespaceWordsShape(s, words);
      words
  }

  /** Cut at \s, a string that holds \s gives a leading empty word when it
      starts with \s but is not all \s, and then its non-empty pieces between
      single \s characters, in order. */
  lemma SplitWhitespaceWords(s: string)
    ensures !Avoids(s, RegexSpace) ==>
              SplitWhitespace(s)
              == (if s[0] in RegexSpace && !AllIn(s, RegexSpace) then [""] else []) + NonEmpty(SplitAll(s, RegexSpace))
  {
    if !Avoids(s, RegexSpace) {
      WhitespaceWords(s);
    }
  }

  /** String.join(sep, parts): the parts in order with one separator between
      neighbours, so that cutting the result at every separator gives the
      parts back when no part holds the separator. */
  function Join(parts: seq<string>, sep: char): (s: string)
    ensures |parts| >= 1 && (forall k :: 0 <= k < |parts| ==> Avoids(parts[k], {sep})) ==>
              SplitAll(s, {sep}) == parts
  {
    if parts == [] then ""
    else if |parts| == 1 then
      assert Avoids(parts[0], {sep}) ==> SplitAll(parts[0], {sep}) == parts by {
        if Avoids(parts[0], {sep}) {
          SplitAllAvoiding(parts[0], {sep});
        }
      }
      parts[0]
    else
      var rest := Join(parts[1..], sep);
      assert (forall k :: 0 <= k < |parts| ==> Avoids(parts[k], {sep})) ==>
               SplitAll(parts[0] + [sep] + rest, {sep}) == parts by {
        if forall k :: 0 <= k < |parts| ==> Avoids(parts[k], {sep}) {
          SplitAllAt(parts[0], sep, rest, {sep});
          assert [parts[0]] + parts[1..] == parts;
        }
      }
      parts[0] + [sep] + rest
  }

  lemma {:induction false} SplitAllAvoiding(s: string, seps: set<char>)
    requires Avoids(s, seps)
    ensures SplitAll(s, seps) == [s]
  {
    if s != [] {
      SplitAllAvoiding(s[1..], seps);
      assert [s[0]] + s[1..] == s;
    }
  }

  lemma {:induction false} SplitAllAt(a: string, c: char, b: string, seps: set<char>)
    requires Avoids(a, seps) && c in seps
    ensures SplitAll(a + [c] + b, seps) == [a] + SplitAll(b, seps)
  {
    var s := a + [c] + b;
    if a == [] {
      assert s[1..] == b;
    } else {
      assert s[1..] == a[1..] + [c] + b;
      SplitAllAt(a[1..], c, b, seps);
      assert [a[0]] + a[1..] == a;
    }
  }

  /** Splitting undoes joining, when no part holds a separator. */
  lemma {:induction false} SplitAllJoin(parts: seq<string>, sep: char, seps: set<char>)
    requires |parts| >= 1 && sep in seps
    requires forall k :: 0 <= k < |parts| ==> Avoids(parts[k], seps)
    ensures SplitAll(Join(parts, sep), seps) == parts
  {
    if |parts| == 1 {
      SplitAllAvoiding(parts[0], seps);
    } else {
      SplitAllJoin(parts[1..], sep, seps);
      SplitAllAt(parts[0], sep, Join(parts[1..], sep), seps);
      assert [parts[0]] + parts[1..] == parts;
    }
  }

  /** A character that is neither the separator nor in any part is not in
      the joined string. */
  lemma {:induction false} JoinAvoids(parts: seq<string>, sep: char, c: char)
    requires c != sep && forall k :: 0 <= k < |parts| ==> c !in parts[k]
    ensures c !in Join(parts, sep)
  {
    if |parts| > 1 {
      JoinAvoids(parts[1..], sep, c);
    }
  }

  /** Joining non-empty trimmed parts gives a trimmed string. */
  lemma {:induction false} JoinTrimmed(parts: seq<string>, sep: char)
    requires forall k :: 0 <= k < |parts| ==> parts[k] != [] && IsTrimmed(parts[k])
    ensures IsTrimmed(Join(parts, sep))
    ensures |parts| >= 1 ==> Join(parts, sep) != []
  {
    if |parts| > 1 {
      JoinTrimmed(parts[1..], sep);
      var s := Join(parts, sep);
      var tail := Join(parts[1..], sep);
      assert s == parts[0] + [sep] + tail;
      assert s[0] == parts[0][0];
      assert s[|s| - 1] == tail[|tail| - 1];
    }
  }

  lemma {:induction false} JoinCons(c: char, rest: seq<string>, sep: char)
    requires |rest| >= 1
    ensures Join([[c] + rest[0]] + rest[1..], sep) == [c] + Join(rest, sep)
  {
    var parts := [[c] + rest[0]] + rest[1..];
    if |rest| > 1 {
      assert parts[1..] == rest[1..];
    }
  }

  /** Joining undoes splitting at a single separator character. */
  lemma {:induction false} JoinSplitAll(s: string, sep: char)
    ensures Join(SplitAll(s, {sep}), sep) == s
  {
    if s != [] {
      JoinSplitAll(s[1..], sep);
      var rest := SplitAll(s[1..], {sep});
      if s[0] == sep {
        assert ([""] + rest)[1..] == rest;
        assert [sep] + s[1..] == s;
      } else {
        JoinCons(s[0], rest, sep);
        assert [s[0]] + s[1..] == s;
      }
    }
  }

  lemma {:induction false} JoinTrailingEmpty(b: string, empties: seq<string>, sep: char)
    requires forall k :: 0 <= k < |empties| ==> empties[k] == ""
    ensures Join([b] + empties, sep) == b + Repeat(sep, |empties|)
    decreases |empties|
  {
    if empties != [] {
      JoinTrailingEmpty("", empties[1..], sep);
      assert ([b] + empties)[1..] == [""] + empties[1..];
    }
  }

  /** n empty strings. */
  function EmptyStrings(n: nat): (r: seq<string>)
    ensures |r| == n && forall k :: 0 <= k < n ==> r[k] == ""
  {
    if n == 0 then [] else [""] + EmptyStrings(n - 1)
  }

  lemma {:induction false} SplitAllTail(b: string, t: string, sep: char)
    requires sep !in b && AllChar(t, sep)
    ensures SplitAll(b + t, {sep}) == [b] + EmptyStrings(|t|)
    decreases |t|
  {
    if t == [] {
      assert b + t == b;
      SplitAllAvoiding(b, {sep});
    } else {
      assert b + t == b + [sep] + t[1..];
      SplitAllAt(b, sep, t[1..], {sep});
      SplitAllTail("", t[1..], sep);
      assert "" + t[1..] == t[1..];
    }
  }

  /** A line "a;b" followed by any number of further separators splits into
      exactly the two fields a and b, provided b is not empty: Java drops the
      empty pieces after b. */
  lemma TwoFieldsSplit(a: string, b: string, t: string, sep: char)
    requires sep !in a && sep !in b && b != "" && AllChar(t, sep)
    ensures Split(a + [sep] + b + t, sep) == [a, b]
  {
    var s := a + [sep] + b + t;
    assert s == a + [sep] + (b + t);
    assert s[|a|] == sep;
    SplitAllAt(a, sep, b + t, {sep});
    SplitAllTail(b, t, sep);
    var parts := SplitAll(s, {sep});
    assert parts == [a, b] + EmptyStrings(|t|);
    var r := DropTrailingEmpty(parts);
    DropTrailingEmptyPrefix(parts);
    assert parts[1] == b;
    assert |r| >= 2;
  }

  /** Conversely, whenever Split gives exactly two fields, the string is the
      first field, the separator, the second (non-empty) field and then nothing
      but separators. */
  lemma TwoFieldsShape(s: string, sep: char) returns (a: string, b: string, t: string)
    requires |Split(s, sep)| == 2
    ensures Split(s, sep) == [a, b]
    ensures s == a + [sep] + b + t
    ensures sep !in a && sep !in b && b != "" && AllChar(t, sep)
  {
    var parts := SplitAll(s, {sep});
    var r := DropTrailingEmpty(parts);
    DropTrailingEmptyPrefix(parts);
    SplitAllPieces(s, {sep});
    assert sep in s;
    assert r == Split(s, sep);
    a, b := r[0], r[1];
    assert Avoids(a, {sep}) && Avoids(b, {sep});
    var empties := parts[2..];
    assert parts == [a] + ([b] + empties);
    JoinSplitAll(s, sep);
    JoinTrailingEmpty(b, empties, sep);
    t := Repeat(sep, |empties|);
    assert s == Join(parts, sep) == a + [sep] + Join([b] + empties, sep);
  }

  // ------------------------------------------------------------ whitespace

  lemma {:induction false} NonEmptyOfNonEmpty(parts: seq<string>)
    requires forall k :: 0 <= k < |parts| ==> parts[k] != ""
    ensures NonEmpty(parts) == parts
  {
    if parts != [] {
      NonEmptyOfNonEmpty(parts[1..]);
      assert [parts[0]] + parts[1..] == parts;
    }
  }

  /** Splitting at whitespace recovers the words that were joined with single
      spaces, when the words are non-empty and hold no whitespace. */
  lemma WordsOfJoin(words: seq<string>)
    requires |words| >= 1
    requires forall k :: 0 <= k < |words| ==> words[k] != "" && Avoids(words[k], RegexSpace)
    ensures SplitWhitespace(Join(words, ' ')) == words
  {
    var s := Join(words, ' ');
    if |words| > 1 {
      assert !Avoids(s, RegexSpace) && s[0] !in RegexSpace by {
        assert s[|words[0]|] == ' ';
        assert s[0] == words[0][0];
      }
      assert SplitAll(s, RegexSpace) == words by {
        SplitAllJoin(words, ' ', RegexSpace);
      }
      NonEmptyOfNonEmpty(words);
      SplitWhitespaceWords(s);
    }
  }

  lemma {:induction false} SomePieceNonEmpty(s: string, seps: set<char>, i: nat) returns (k: nat)
    requires i < |s| && s[i] !in seps
    ensures k < |SplitAll(s, seps)| && SplitAll(s, seps)[k] != ""
  {
    var rest := SplitAll(s[1..], seps);
    if s[0] !in seps {
      k := 0;
    } else {
      var k' := SomePieceNonEmpty(s[1..], seps, i - 1);
      k := k' + 1;
    }
  }

  /** A string that is not blank has at least one whitespace-separated word, so
      dividing by the number of words is safe. */
  lemma WordsOfNonBlank(s: string)
    requires !IsBlank(s)
    ensures |SplitWhitespace(s)| >= 1
  {
    if !Avoids(s, RegexSpace) {
      var i :| 0 <= i < |s| && !IsTrimSpace(s[i]);
      var parts := SplitAll(s, RegexSpace);
      var k := SomePieceNonEmpty(s, RegexSpace, i);
      var listed := [parts[0]] + NonEmpty(parts[1..]);
      DropTrailingEmptyPrefix(listed);
      if k == 0 {
        assert listed[0] != "";
      } else {
        assert parts[k] in parts[1..];
        NonEmptyMembers(parts[1..]);
        assert parts[k] in NonEmpty(parts[1..]);
        var j :| 0 <= j < |NonEmpty(parts[1..])| && NonEmpty(parts[1..])[j] == parts[k];
        assert listed[j + 1] != "";
      }
    }
  }

  // --------------------------------------------------------------- numbers

  predicate IsDigit(c: char) {
    '0' <= c <= '9'
  }

  predicate IsDigits(s: string) {
    forall i :: 0 <= i < |s| ==> IsDigit(s[i])
  }

  /** The value of a string of decimal digits, most significant first. */
  function DigitsValue(ds: string): nat
    requires IsDigits(ds)
  {
    if ds == [] then 0 else DigitsValue(ds[..|ds| - 1]) * 10 + (ds[|ds| - 1] as int - '0' as int)
  }

  /** s without its leading '+' or '-', if it has one. */
  function Unsigned(s: string): string {
    if s != [] && (s[0] == '-' || s[0] == '+') then s[1..] else s
  }

  /** Integer.parseInt(s): an optional '+' or '-', then one or more decimal
      digits, leading zeros allowed. None where Java throws
      NumberFormatException, which includes a value outside the int range. */
  function ParseInt(s: string): (r: Option<Int32>)
    ensures r.Some? ==> |s| >= 1 && IsDigit(s[|s| - 1]) && forall i :: 0 < i < |s| ==> IsDigit(s[i])
    ensures r.Some? ==> s[0] == '+' || s[0] == '-' || IsDigit(s[0])
    ensures r.Some? && r.value < 0 ==> s[0] == '-'
    ensures s != [] && IsDigits(s) && DigitsValue(s) <= MaxInt32 ==> r == Some(DigitsValue(s))
    ensures r.Some? <==>
              && Unsigned(s) != [] && IsDigits(Unsigned(s))
              && if s[0] == '-' then MinInt32 <= -(DigitsValue(Unsigned(s)) as int) else DigitsValue(Unsigned(s)) <= MaxInt32
    ensures r.Some? ==> r.value == if s[0] == '-' then -(DigitsValue(Unsigned(s)) as int) else DigitsValue(Unsigned(s))
  {
    var digits := Unsigned(s);
    if digits == [] || !IsDigits(digits) then None
    else
      var v: int := if s[0] == '-' then -(DigitsValue(digits) as int) else DigitsValue(digits);
      if MinInt32 <= v <= MaxInt32 then Some(v) else None
  }

  function DigitChar(d: int): (c: char)
    requires 0 <= d <= 9
    ensures IsDigit(c) && c as int - '0' as int == d
  {
    ('0' as int + d) as char
  }

  /** The decimal digits of n, with no leading zero. */
  function NatToString(n: nat): (s: string)
    ensures s != [] && IsDigits(s) && DigitsValue(s) == n
    ensures s[0] == '0' ==> n == 0 && s == "0"
  {
    if n < 10 then [DigitChar(n)]
    else
      var s := NatToString(n / 10) + [DigitChar(n % 10)];
      assert s[..|s| - 1] == NatToString(n / 10);
      s
  }

  /** Integer.toString(n): the canonical decimal form of n. It starts with '-'
      exactly when n is negative; the rest are the digits of |n|, with no
      leading zero unless n is 0. */
  function IntToString(n: int): (s: string)
    ensures s != [] && forall i :: 0 <= i < |s| ==> s[i] == '-' || IsDigit(s[i])
    ensures IsDigit(s[|s| - 1])
    ensures (s[0] == '-') == (n < 0)
    ensures var digits := if n < 0 then s[1..] else s;
            && digits != [] && IsDigits(digits)
            && DigitsValue(digits) == (if n < 0 then -n else n)
            && (digits[0] == '0' ==> digits == "0")
  {
    if n < 0 then "-" + NatToString(-n) else NatToString(n)
  }

  /** Integer.parseInt reads back what Integer.toString wrote, for every int. */
  lemma ParseIntToString(n: Int32)
    ensures ParseInt(IntToString(n)) == Some(n)
  {
    var s := IntToString(n);
    if n < 0 {
      var m: nat := -(n as int);
      assert s[1..] == NatToString(m);
    }
  }

  // ------------------------------------------------------- int arithmetic

  const TwoTo32: int := 0x1_0000_0000

  /** The int that Java keeps of the mathematical value x: x modulo 2^32,
      read back as a two's-complement number. */
  function Wrap32(x: int): Int32 {
    (x - MinInt32) % TwoTo32 + MinInt32
  }

  /** Java's a * b on two ints: the product wraps around. */
  function MulInt32(a: Int32, b: Int32): Int32 {
    Wrap32(a * b)
  }

  /** Java's a / b for a positive divisor: the quotient rounds toward zero,
      so a negative dividend gives a quotient that is not Dafny's. */
  function DivInt32(a: Int32, b: Int32): Int32
    requires b > 0
  {
    if a >= 0 then
      DivBounds(a, b);
      a / b
    else
      var m: nat := -(a as int);
      DivBounds(m, b);
      -(m / b)
  }

  /** Wrap32 keeps x modulo 2^32, and keeps x itself when x is an int. */
  lemma Wrap32Keeps(x: int)
    ensures (x - Wrap32(x)) % TwoTo32 == 0
    ensures MinInt32 <= x <= MaxInt32 ==> Wrap32(x) == x
  {
  }

  /** A product that fits in an int is exact. */
  lemma MulInt32Exact(a: Int32, b: Int32)
    requires MinInt32 <= a * b <= MaxInt32
    ensures MulInt32(a, b) == a * b
  {
    Wrap32Keeps(a * b);
  }

  /** The quotient rounds toward zero: it is the largest multiple of b not
      above a for a non-negative a, and the smallest not below a otherwise. */
  lemma DivInt32Truncates(a: Int32, b: Int32)
    requires b > 0
    ensures a >= 0 ==> 0 <= DivInt32(a, b) && DivInt32(a, b) * b <= a < DivInt32(a, b) * b + b
    ensures a < 0 ==> DivInt32(a, b) <= 0 && DivInt32(a, b) * b - b < a <= DivInt32(a, b) * b
  {
    if a >= 0 {
      DivBounds(a, b);
    } else {
      var m: nat := -(a as int);
      DivBounds(m, b);
      var d := m / b;
      assert DivInt32(a, b) == -d;
      assert (-d) * b == -(d * b);
    }
  }

  lemma DivBounds(m: nat, b: int)
    requires b > 0
    ensures 0 <= m / b <= m
    ensures (m / b) * b <= m < (m / b) * b + b
  {
    var d := m / b;
    assert m == d * b + m % b && 0 <= m % b < b;
    MulSign(d, b);
  }

  /** Multiplying by a positive y keeps the sign of x and does not shrink a
      non-negative x. */
  lemma {:induction false} MulSign(x: int, y: int)
    requires y >= 1
    ensures x >= 0 ==> x * y >= x
    ensures x < 0 ==> x * y <= -y
    decreases if x >= 0 then x else -x
  {
    if x > 0 {
      MulSign(x - 1, y);
      assert x * y == (x - 1) * y + y;
    } else if x < -1 {
      MulSign(x + 1, y);
      assert x * y == (x + 1) * y - y;
    }
  }
}
