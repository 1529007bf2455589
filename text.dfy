/** The pieces of Kotlin's standard text library that the location checks
    rely on: `isBlank`, `split` on a literal delimiter, and
    `contains(other, ignoreCase = true)`. */
module Text {

  /** `Char.isWhitespace()` on the JVM: Java whitespace (tab to carriage return,
      the four information separators, the space separators other than the
      no-break ones, line and paragraph separator) or a Unicode space separator. */
  predicate IsWhitespace(c: char) {
    || ('\t' <= c <= '\r')
    || ('\U{1C}' <= c <= '\U{1F}')
    || c == ' '
    || c == '\U{A0}'
    || c == '\U{1680}'
    || ('\U{2000}' <= c <= '\U{200A}')
    || c == '\U{2028}'
    || c == '\U{2029}'
    || c == '\U{202F}'
    || c == '\U{205F}'
    || c == '\U{3000}'
  }

  /** `CharSequence.isBlank()`: empty, or whitespace only. */
  predicate IsBlank(s: string) {
    forall i :: 0 <= i < |s| ==> IsWhitespace(s[i])
  }

  // ---------------------------------------------------------------------------
  // split
  // ---------------------------------------------------------------------------

  /** `s.split(sep)` for a non-empty literal delimiter and no limit: the pieces
      between the leftmost non-overlapping occurrences of `sep`, scanning from
      the left; empty pieces, trailing ones included, are kept. */
  function Split(s: string, sep: string): (pieces: seq<string>)
    requires sep != []
    ensures |pieces| >= 1
    decreases |s|
  {
    if |s| < |sep| then [s]
    else if s[..|sep|] == sep then [[]] + Split(s[|sep|..], sep)
    else
      var rest := Split(s[1..], sep);
      [[s[0]] + rest[0]] + rest[1..]
  }

  /** `pieces.joinToString(sep)`: the inverse of `Split`. */
  function Join(pieces: seq<string>, sep: string): string
    requires |pieces| >= 1
  {
    if |pieces| == 1 then pieces[0] else pieces[0] + sep + Join(pieces[1..], sep)
  }

  /** Putting a character in front of the first piece puts it in front of the
      joined string. */
  lemma {:induction false} JoinPrepend(c: char, pieces: seq<string>, sep: string)
    requires |pieces| >= 1
    ensures Join([[c] + pieces[0]] + pieces[1..], sep) == [c] + Join(pieces, sep)
  {
    var extended := [[c] + pieces[0]] + pieces[1..];
    if |pieces| > 1 {
      assert extended[1..] == pieces[1..];
      assert Join(extended, sep) == ([c] + pieces[0]) + sep + Join(pieces[1..], sep);
    }
  }

  /** Splitting loses nothing: joining the pieces back gives the input. */
  lemma {:induction false} JoinSplit(s: string, sep: string)
    requires sep != []
    ensures Join(Split(s, sep), sep) == s
    decreases |s|
  {
    if |s| < |sep| {
    } else if s[..|sep|] == sep {
      var tail := s[|sep|..];
      JoinSplit(tail, sep);
      assert Split(s, sep) == [[]] + Split(tail, sep);
      assert s == sep + tail;
    } else {
      var rest := Split(s[1..], sep);
      JoinSplit(s[1..], sep);
      assert Split(s, sep) == [[s[0]] + rest[0]] + rest[1..];
      JoinPrepend(s[0], rest, sep);
      assert s == [s[0]] + s[1..];
    }
  }

  /** `s.split(sep).size`: the number of pieces of the leftmost cut, the only
      cut there is. */
  function SplitCount(s: string, sep: string): (n: nat)
    requires sep != []
    ensures n >= 1
    ensures forall pieces :: IsLeftmostSplit(s, sep, pieces) ==> n == |pieces|
  {
    LeftmostSplitsAgree(s, sep);
    |Split(s, sep)|
  }

  /** Splitting on a single character gives one more piece than there are
      occurrences of that character. */
  lemma {:induction false} SplitCountOnChar(s: string, c: char)
    ensures SplitCount(s, [c]) == multiset(s)[c] + 1
    decreases |s|
  {
    if |s| != 0 {
      SplitCountOnChar(s[1..], c);
      SplitOnCharStep(s, c);
      assert s == [s[0]] + s[1..];
      assert multiset(s) == multiset{s[0]} + multiset(s[1..]);
    }
  }

  /** Each character of the string adds a piece exactly when it is the
      delimiter. */
  lemma {:induction false} SplitOnCharStep(s: string, c: char)
    requires s != []
    ensures |Split(s, [c])| == |Split(s[1..], [c])| + (if s[0] == c then 1 else 0)
  {
    var rest := Split(s[1..], [c]);
    assert s[..1] == [s[0]];
    if s[0] == c {
      assert Split(s, [c]) == [[]] + rest;
    } else {
      assert Split(s, [c]) == [[s[0]] + rest[0]] + rest[1..];
    }
  }

  /** A string that holds the delimiter somewhere splits into at least two pieces. */
  lemma {:induction false} SplitAtOccurrence(s: string, sep: string, i: nat)
    requires sep != []
    requires i + |sep| <= |s| && s[i..i + |sep|] == sep
    ensures SplitCount(s, sep) >= 2
    decreases |s|
  {
    if s[..|sep|] == sep {
      assert Split(s, sep) == [[]] + Split(s[|sep|..], sep);
    } else {
      assert i > 0;
      assert s[1..][i - 1..i - 1 + |sep|] == sep;
      SplitAtOccurrence(s[1..], sep, i - 1);
    }
  }

  /** A string in which the delimiter's first character never appears is a
      single piece. */
  lemma {:induction false} SplitWithoutDelimiter(s: string, sep: string)
    requires sep != [] && sep[0] !in s
    ensures Split(s, sep) == [s]
    decreases |s|
  {
    if |s| >= |sep| {
      assert s[..|sep|][0] == s[0];
      SplitWithoutDelimiter(s[1..], sep);
      assert [s[0]] + s[1..] == s;
    }
  }

  /** When the delimiter's first character does not appear before the first
      delimiter, the first piece is everything before that delimiter. */
  lemma {:induction false} SplitAtFirstDelimiter(a: string, sep: string, b: string)
    requires sep != [] && sep[0] !in a
    ensures Split(a + sep + b, sep) == [a] + Split(b, sep)
    decreases |a|
  {
    var s := a + sep + b;
    if a == [] {
      assert s == sep + b;
      assert s[..|sep|] == sep && s[|sep|..] == b;
    } else {
      assert s[..|sep|][0] == a[0];
      assert s[1..] == a[1..] + sep + b;
      SplitAtFirstDelimiter(a[1..], sep, b);
      assert [a[0]] + a[1..] == a;
    }
  }

  // ---------------------------------------------------------------------------
  // What split computes
  // ---------------------------------------------------------------------------

  /** `pattern` occurs in `text` exactly, starting at `at`. */
  predicate OccursAt(text: string, pattern: string, at: int) {
    0 <= at && at + |pattern| <= |text| && text[at..at + |pattern|] == pattern
  }

  /** Plain, case-sensitive `text.contains(pattern)`. */
  ghost predicate Contains(text: string, pattern: string) {
    exists at :: OccursAt(text, pattern, at)
  }

  /** `pieces` cut `s` at the leftmost non-overlapping occurrences of `sep`:
      joined with `sep` they give `s` back, the last piece holds no `sep`, and
      no `sep` starts inside any other piece, not even one that runs on into
      the delimiter after it. */
  ghost predicate IsLeftmostSplit(s: string, sep: string, pieces: seq<string>)
    requires sep != []
  {
    && |pieces| >= 1
    && Join(pieces, sep) == s
    && !Contains(pieces[|pieces| - 1], sep)
    && forall i :: 0 <= i < |pieces| - 1 ==> !Contains(pieces[i] + sep[..|sep| - 1], sep)
  }

  /** An occurrence in a prefix is an occurrence in the whole. */
  lemma {:induction false} ContainsInPrefix(a: string, b: string, sep: string)
    ensures Contains(a, sep) ==> Contains(a + b, sep)
  {
    if Contains(a, sep) {
      var at :| OccursAt(a, sep, at);
      assert (a + b)[at..at + |sep|] == a[at..at + |sep|];
      assert OccursAt(a + b, sep, at);
    }
  }

  /** An occurrence that does not start at the first character is an
      occurrence in the rest. */
  lemma {:induction false} ContainsAfterFirst(t: string, sep: string)
    requires t != []
    ensures Contains(t[1..], sep) ==> Contains(t, sep)
    ensures Contains(t, sep) && !OccursAt(t, sep, 0) ==> Contains(t[1..], sep)
  {
    if Contains(t[1..], sep) {
      var at :| OccursAt(t[1..], sep, at);
      assert t[at + 1..at + 1 + |sep|] == t[1..][at..at + |sep|];
      assert OccursAt(t, sep, at + 1);
    }
    if Contains(t, sep) && !OccursAt(t, sep, 0) {
      var at :| OccursAt(t, sep, at);
      assert t[1..][at - 1..at - 1 + |sep|] == t[at..at + |sep|];
      assert OccursAt(t[1..], sep, at - 1);
    }
  }

  /** `Split` cuts at the leftmost non-overlapping occurrences. */
  lemma {:induction false} SplitIsLeftmost(s: string, sep: string)
    requires sep != []
    ensures IsLeftmostSplit(s, sep, Split(s, sep))
    decreases |s|
  {
    JoinSplit(s, sep);
    if |s| < |sep| {
      assert Split(s, sep) == [s];
      assert !Contains(s, sep);
    } else if s[..|sep|] == sep {
      SplitIsLeftmost(s[|sep|..], sep);
      LeftmostAtDelimiter(s, sep);
    } else {
      SplitIsLeftmost(s[1..], sep);
      LeftmostPastFirst(s, sep);
    }
  }

  /** The step of `SplitIsLeftmost` where `s` starts with the delimiter. */
  lemma {:induction false} LeftmostAtDelimiter(s: string, sep: string)
    requires sep != [] && |s| >= |sep| && s[..|sep|] == sep
    requires IsLeftmostSplit(s[|sep|..], sep, Split(s[|sep|..], sep))
    ensures var pieces := Split(s, sep);
      && !Contains(pieces[|pieces| - 1], sep)
      && forall i :: 0 <= i < |pieces| - 1 ==> !Contains(pieces[i] + sep[..|sep| - 1], sep)
  {
    var pieces := Split(s, sep);
    var tail := Split(s[|sep|..], sep);
    var short := sep[..|sep| - 1];
    assert pieces == [[]] + tail;
    assert !Contains([] + short, sep);
    assert pieces[|pieces| - 1] == tail[|tail| - 1];
    forall i | 1 <= i < |pieces| - 1
      ensures !Contains(pieces[i] + short, sep)
    {
      assert pieces[i] == tail[i - 1];
    }
  }

  /** The step of `SplitIsLeftmost` where `s` does not start with the
      delimiter: its first character joins the first piece of the rest. */
  lemma {:induction false} LeftmostPastFirst(s: string, sep: string)
    requires sep != [] && |s| >= |sep| && s[..|sep|] != sep
    requires IsLeftmostSplit(s[1..], sep, Split(s[1..], sep))
    ensures var pieces := Split(s, sep);
      && !Contains(pieces[|pieces| - 1], sep)
      && forall i :: 0 <= i < |pieces| - 1 ==> !Contains(pieces[i] + sep[..|sep| - 1], sep)
  {
    var rest := Split(s[1..], sep);
    PastFirstShape(s, sep);
    PastFirstLastPiece(s, sep, rest);
    PastFirstOtherPieces(s, sep, rest);
  }

  /** How `Split` treats a string that does not start with the delimiter. */
  lemma {:induction false} PastFirstShape(s: string, sep: string)
    requires sep != [] && |s| >= |sep| && s[..|sep|] != sep
    ensures var rest := Split(s[1..], sep);
      Split(s, sep) == [[s[0]] + rest[0]] + rest[1..]
  {
  }

  /** The last piece of the rest stays the last piece, or is all of `s` once
      `s[0]` joins it. */
  lemma {:induction false} PastFirstLastPiece(s: string, sep: string, rest: seq<string>)
    requires sep != [] && |s| >= |sep| && s[..|sep|] != sep
    requires |rest| >= 1 && Join(rest, sep) == s[1..] && !Contains(rest[|rest| - 1], sep)
    ensures var pieces := [[s[0]] + rest[0]] + rest[1..];
      !Contains(pieces[|pieces| - 1], sep)
  {
    var pieces := [[s[0]] + rest[0]] + rest[1..];
    if |rest| == 1 {
      assert [s[0]] + s[1..] == s;
      assert pieces[0] == s;
      WholeIsDelimiterFree(s, sep);
    } else {
      assert pieces[|pieces| - 1] == rest[|rest| - 1];
    }
  }

  /** Every piece but the last still has no delimiter starting in it. */
  lemma {:induction false} PastFirstOtherPieces(s: string, sep: string, rest: seq<string>)
    requires sep != [] && |s| >= |sep| && s[..|sep|] != sep
    requires |rest| >= 1 && Join(rest, sep) == s[1..]
    requires forall i :: 0 <= i < |rest| - 1 ==> !Contains(rest[i] + sep[..|sep| - 1], sep)
    ensures var pieces := [[s[0]] + rest[0]] + rest[1..];
      forall i :: 0 <= i < |pieces| - 1 ==> !Contains(pieces[i] + sep[..|sep| - 1], sep)
  {
    var pieces := [[s[0]] + rest[0]] + rest[1..];
    if |rest| >= 2 {
      FirstPieceIsLeftmost(s, sep, rest);
      forall i | 1 <= i < |pieces| - 1
        ensures !Contains(pieces[i] + sep[..|sep| - 1], sep)
      {
        assert pieces[i] == rest[i];
      }
    }
  }

  /** A string that does not start with the delimiter and whose rest holds
      none holds none. */
  lemma {:induction false} WholeIsDelimiterFree(s: string, sep: string)
    requires sep != [] && |s| >= |sep| && s[..|sep|] != sep
    requires !Contains(s[1..], sep)
    ensures !Contains(s, sep)
  {
    assert !OccursAt(s, sep, 0);
    ContainsAfterFirst(s, sep);
  }

  /** The first piece, once `s[0]` joins it, still has no delimiter starting in
      it, because `s` itself does not start with one. */
  lemma {:induction false} FirstPieceIsLeftmost(s: string, sep: string, rest: seq<string>)
    requires sep != [] && |s| >= |sep| && s[..|sep|] != sep
    requires |rest| >= 2 && Join(rest, sep) == s[1..]
    requires !Contains(rest[0] + sep[..|sep| - 1], sep)
    ensures !Contains([s[0]] + rest[0] + sep[..|sep| - 1], sep)
  {
    var short := sep[..|sep| - 1];
    var t := [s[0]] + rest[0] + short;
    assert s == [s[0]] + s[1..];
    assert s[1..] == rest[0] + sep + Join(rest[1..], sep);
    assert s == t + [sep[|sep| - 1]] + Join(rest[1..], sep);
    assert s[..|sep|] == t[..|sep|];
    assert !OccursAt(t, sep, 0);
    assert t[1..] == rest[0] + short;
    ContainsAfterFirst(t, sep);
  }

  /** A string without the delimiter is one piece. */
  lemma {:induction false} SplitOfDelimiterFree(s: string, sep: string)
    requires sep != [] && !Contains(s, sep)
    ensures Split(s, sep) == [s]
    decreases |s|
  {
    if |s| >= |sep| {
      assert !OccursAt(s, sep, 0);
      ContainsAfterFirst(s, sep);
      SplitOfDelimiterFree(s[1..], sep);
      assert [s[0]] + s[1..] == s;
    }
  }

  /** Cutting at a delimiter that starts nowhere earlier, not even overlapping
      it, leaves the text before it as the first piece. */
  lemma {:induction false} SplitAfterLeftmost(a: string, sep: string, b: string)
    requires sep != [] && !Contains(a + sep[..|sep| - 1], sep)
    ensures Split(a + sep + b, sep) == [a] + Split(b, sep)
    decreases |a|
  {
    var s := a + sep + b;
    var t := a + sep[..|sep| - 1];
    if a == [] {
      assert s == sep + b;
      assert s[..|sep|] == sep && s[|sep|..] == b;
    } else {
      assert s == t + [sep[|sep| - 1]] + b;
      assert s[..|sep|] == t[..|sep|];
      assert !OccursAt(t, sep, 0);
      assert s[1..] == a[1..] + sep + b;
      assert t[1..] == a[1..] + sep[..|sep| - 1];
      ContainsAfterFirst(t, sep);
      SplitAfterLeftmost(a[1..], sep, b);
      assert [a[0]] + a[1..] == a;
    }
  }

  /** The leftmost cut is the only one: any pieces with its properties are
      what `Split` returns. */
  lemma {:induction false} LeftmostSplitIsUnique(s: string, sep: string, pieces: seq<string>)
    requires sep != [] && IsLeftmostSplit(s, sep, pieces)
    ensures pieces == Split(s, sep)
    decreases |pieces|
  {
    if |pieces| == 1 {
      SplitOfDelimiterFree(s, sep);
    } else {
      var rest := pieces[1..];
      forall i | 0 <= i < |rest| - 1
        ensures !Contains(rest[i] + sep[..|sep| - 1], sep)
      {
        assert rest[i] == pieces[i + 1];
      }
      assert rest[|rest| - 1] == pieces[|pieces| - 1];
      LeftmostSplitIsUnique(Join(rest, sep), sep, rest);
      assert s == pieces[0] + sep + Join(rest, sep);
      SplitAfterLeftmost(pieces[0], sep, Join(rest, sep));
      assert pieces == [pieces[0]] + rest;
    }
  }

  /** Every leftmost cut of `s` is `Split(s, sep)`. */
  lemma {:induction false} LeftmostSplitsAgree(s: string, sep: string)
    requires sep != []
    ensures forall pieces :: IsLeftmostSplit(s, sep, pieces) ==> pieces == Split(s, sep)
  {
    forall pieces | IsLeftmostSplit(s, sep, pieces)
      ensures pieces == Split(s, sep)
    {
      LeftmostSplitIsUnique(s, sep, pieces);
    }
  }

  /** No piece holds the delimiter. */
  lemma {:induction false} PiecesAreDelimiterFree(s: string, sep: string)
    requires sep != []
    ensures forall p :: p in Split(s, sep) ==> !Contains(p, sep)
  {
    var pieces := Split(s, sep);
    SplitIsLeftmost(s, sep);
    forall i | 0 <= i < |pieces| - 1
      ensures !Contains(pieces[i], sep)
    {
      ContainsInPrefix(pieces[i], sep[..|sep| - 1], sep);
    }
  }

  // ---------------------------------------------------------------------------
  // contains, ignoring case
  // ---------------------------------------------------------------------------

  /** Case folding, restricted to the ASCII letters. */
  function FoldCase(c: char): char {
    if 'A' <= c <= 'Z' then (c as int + 32) as char else c
  }

  /** `Char.equals(other, ignoreCase = true)` over `FoldCase`. */
  predicate EqualsIgnoreCase(a: char, b: char) {
    FoldCase(a) == FoldCase(b)
  }

  /** `pattern.regionMatches(0, text, at, pattern.length, ignoreCase = true)`:
      the pattern fits in the text at `at` and agrees with it there up to case. */
  predicate MatchesAt(text: string, pattern: string, at: int) {
    && 0 <= at
    && at + |pattern| <= |text|
    && forall k :: 0 <= k < |pattern| ==> EqualsIgnoreCase(text[at + k], pattern[k])
  }

  /** `text.indexOf(pattern, from, ignoreCase = true)`: the leftmost match at or
      after `from`, or -1 if there is none. */
  function IndexOfIgnoreCase(text: string, pattern: string, from: nat): (r: int)
    ensures r == -1 || (from <= r && MatchesAt(text, pattern, r))
    ensures forall at :: from <= at && (r == -1 || at < r) ==> !MatchesAt(text, pattern, at)
    decreases |text| - from
  {
    if from + |pattern| > |text| then -1
    else if MatchesAt(text, pattern, from) then from
    else IndexOfIgnoreCase(text, pattern, from + 1)
  }

  /** `text.contains(pattern, ignoreCase = true)`. */
  predicate ContainsIgnoreCase(text: string, pattern: string)
    ensures ContainsIgnoreCase(text, pattern) <==> exists at :: MatchesAt(text, pattern, at)
  {
    IndexOfIgnoreCase(text, pattern, 0) >= 0
  }

  /** `s.lowercase()` over the ASCII letters: no upper-case letter is left,
      every other character stays, and each upper-case letter becomes the
      lower-case letter at the same place in the alphabet. */
  function Lowercase(s: string): (r: string)
    ensures |r| == |s|
    ensures forall i :: 0 <= i < |r| ==> !('A' <= r[i] <= 'Z')
    ensures forall i :: 0 <= i < |s| && !('A' <= s[i] <= 'Z') ==> r[i] == s[i]
    ensures forall i :: 0 <= i < |s| && 'A' <= s[i] <= 'Z' ==>
      'a' <= r[i] <= 'z' && r[i] as int - 'a' as int == s[i] as int - 'A' as int
  {
    seq(|s|, i requires 0 <= i < |s| => FoldCase(s[i]))
  }

  /** Each character is folded on its own. */
  lemma LowercaseFolds(s: string)
    ensures forall i :: 0 <= i < |s| ==> Lowercase(s)[i] == FoldCase(s[i])
  {
  }

  /** Lower-casing twice is lower-casing once. */
  lemma LowercaseIsIdempotent(s: string)
    ensures Lowercase(Lowercase(s)) == Lowercase(s)
  {
  }

  /** A case-blind match is an exact match of the folded strings. */
  lemma {:induction false} MatchesAtLowercase(text: string, pattern: string, at: int)
    requires 0 <= at && at + |pattern| <= |text|
    ensures MatchesAt(text, pattern, at) <==> Lowercase(text)[at..at + |pattern|] == Lowercase(pattern)
  {
    var lt, lp := Lowercase(text), Lowercase(pattern);
    LowercaseFolds(text);
    LowercaseFolds(pattern);
    if MatchesAt(text, pattern, at) {
      assert forall k :: 0 <= k < |pattern| ==> lt[at..at + |pattern|][k] == lp[k];
    }
    if lt[at..at + |pattern|] == lp {
      forall k | 0 <= k < |pattern| ensures EqualsIgnoreCase(text[at + k], pattern[k]) {
        assert lt[at..at + |pattern|][k] == lp[k];
      }
    }
  }

  /** Ignoring case is the same as lower-casing both sides and then searching:
      `text.lowercase().contains(pattern.lowercase())`. */
  lemma {:induction false} ContainsIgnoreCaseIsLowercaseContains(text: string, pattern: string)
    ensures ContainsIgnoreCase(text, pattern) <==> Contains(Lowercase(text), Lowercase(pattern))
  {
    if ContainsIgnoreCase(text, pattern) {
      IgnoreCaseMatchIsLowercaseOccurrence(text, pattern);
    }
    if Contains(Lowercase(text), Lowercase(pattern)) {
      LowercaseOccurrenceIsIgnoreCaseMatch(text, pattern);
    }
  }

  /** One direction of `ContainsIgnoreCaseIsLowercaseContains`. */
  lemma {:induction false} IgnoreCaseMatchIsLowercaseOccurrence(text: string, pattern: string)
    requires ContainsIgnoreCase(text, pattern)
    ensures Contains(Lowercase(text), Lowercase(pattern))
  {
    var at :| MatchesAt(text, pattern, at);
    MatchesAtLowercase(text, pattern, at);
    assert OccursAt(Lowercase(text), Lowercase(pattern), at);
  }

  /** The other direction of `ContainsIgnoreCaseIsLowercaseContains`. */
  lemma {:induction false} LowercaseOccurrenceIsIgnoreCaseMatch(text: string, pattern: string)
    requires Contains(Lowercase(text), Lowercase(pattern))
    ensures ContainsIgnoreCase(text, pattern)
  {
    var at :| OccursAt(Lowercase(text), Lowercase(pattern), at);
    MatchesAtLowercase(text, pattern, at);
    assert MatchesAt(text, pattern, at);
  }

  /** Changing the letter case of either side does not change the outcome. */
  lemma ContainsIgnoreCaseIsCaseBlind(text: string, text': string, pattern: string, pattern': string)
    requires Lowercase(text) == Lowercase(text') && Lowercase(pattern) == Lowercase(pattern')
    ensures ContainsIgnoreCase(text, pattern) == ContainsIgnoreCase(text', pattern')
  {
    ContainsIgnoreCaseIsLowercaseContains(text, pattern);
    ContainsIgnoreCaseIsLowercaseContains(text', pattern');
  }

  /** If no position of the text holds the pattern's first character, up to
      case, the search fails. */
  lemma FirstCharacterAbsent(text: string, pattern: string)
    requires pattern != []
    requires forall i :: 0 <= i <= |text| - |pattern| ==> !EqualsIgnoreCase(text[i], pattern[0])
    ensures !ContainsIgnoreCase(text, pattern)
  {
    forall at: int
      ensures !MatchesAt(text, pattern, at)
    {
      if 0 <= at && at + |pattern| <= |text| {
        assert !EqualsIgnoreCase(text[at + 0], pattern[0]);
      }
    }
  }

  /** A match found at a known position witnesses the search. */
  lemma ContainsIgnoreCaseAt(text: string, pattern: string, at: nat)
    requires at + |pattern| <= |text|
    requires forall k :: 0 <= k < |pattern| ==> EqualsIgnoreCase(text[at + k], pattern[k])
    ensures ContainsIgnoreCase(text, pattern)
  {
    assert MatchesAt(text, pattern, at);
  }
}
