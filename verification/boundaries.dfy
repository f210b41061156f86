/**
 * The two boundary searches of `ContentProcessor`: the binary search for the widest
 * window that fits the token budget (`_find_token_boundary`) and the priority-ordered
 * "last sentence end" search (`_find_sentence_boundary`), together with the size
 * measure both rely on (`_count_tokens_or_chars`).
 */
module Boundaries {
  import opened Strings
  import opened Wrappers

  /** How `_count_tokens_or_chars` measures text: characters when no tokenizer is
      available, otherwise the number of tokens an encoder produces. The encoder itself
      is not modelled; it is any function from text to a count. */
  datatype Counter = Chars | Tokens(count: seq<char> -> nat)

  /** `_count_tokens_or_chars`. */
  function Count(c: Counter, s: seq<char>): nat
  {
    match c
    case Chars => |s|
    case Tokens(count) => count(s)
  }

  /** The property the binary search relies on: appending text never lowers the count. */
  ghost predicate Monotone(c: Counter) {
    c.Tokens? ==> forall a: seq<char>, b: seq<char> :: c.count(a) <= c.count(a + b)
  }

  /** A longer prefix of the same text never counts less. */
  lemma CountPrefixMonotone(c: Counter, s: seq<char>, i: nat, j: nat)
    requires Monotone(c)
    requires i <= j <= |s|
    ensures Count(c, s[..i]) <= Count(c, s[..j])
  {
    if c.Tokens? {
      assert s[..j] == s[..i] + s[i..j];
      assert c.count(s[..i]) <= c.count(s[..i] + s[i..j]);
    }
  }

  /** The window `text[start:m]` fits within `maxTokens`. */
  predicate Fits(c: Counter, text: seq<char>, start: nat, m: nat, maxTokens: nat)
    requires start <= m <= |text|
  {
    Count(c, text[start..m]) <= maxTokens
  }

  /** Reference definition of the widest fitting window: scanning down from `hi`, the
      first end in `(start, hi]` whose window fits. */
  function LastFit(c: Counter, text: seq<char>, start: nat, hi: nat, maxTokens: nat): (r: Option<nat>)
    requires hi <= |text|
    ensures r.Some? ==> start < r.value <= hi && Fits(c, text, start, r.value, maxTokens)
    ensures r.Some? ==> forall m | r.value < m <= hi :: !Fits(c, text, start, m, maxTokens)
    ensures r.None? ==> forall m | start < m <= hi :: !Fits(c, text, start, m, maxTokens)
    decreases hi
  {
    if hi <= start then None
    else if Fits(c, text, start, hi, maxTokens) then Some(hi)
    else LastFit(c, text, start, hi - 1, maxTokens)
  }

  /** What `_find_token_boundary` returns: `start + maxTokens` in character mode; in token
      mode the widest fitting end in `(start, len(text)]`, or `start + maxTokens` when no
      window fits. */
  function TokenBoundary(c: Counter, text: seq<char>, start: nat, maxTokens: nat): (r: nat)
    ensures c.Chars? ==> r == start + maxTokens
    ensures r == start + maxTokens || (start < r <= |text| && Fits(c, text, start, r, maxTokens))
    ensures c.Tokens? ==> forall m | start <= m && r < m <= |text| :: !Fits(c, text, start, m, maxTokens)
    ensures c.Tokens? && (exists m | start < m <= |text| :: Fits(c, text, start, m, maxTokens)) ==>
      start < r <= |text| && Fits(c, text, start, r, maxTokens)
  {
    if c.Chars? then start + maxTokens
    else
      match LastFit(c, text, start, |text|, maxTokens)
      case Some(m) => m
      case None => start + maxTokens
  }

  /** `_find_token_boundary`: binary search over the end of the window. Whatever the
      counter, the result is `start + maxTokens` or a fitting end; when the counter is
      monotone it is exactly the widest fitting end. */
  method FindTokenBoundary(text: seq<char>, start: nat, maxTokens: nat, counter: Counter)
    returns (bestEnd: nat)
    ensures bestEnd == start + maxTokens || (start < bestEnd <= |text| && Fits(counter, text, start, bestEnd, maxTokens))
    ensures Monotone(counter) ==> bestEnd == TokenBoundary(counter, text, start, maxTokens)
  {
    if !counter.Tokens? {
      return start + maxTokens;
    }
    var left, right := start, |text|;
    bestEnd := start + maxTokens;
    while left < right
      invariant start <= left
      invariant start <= |text| ==> left <= right <= |text|
      invariant start > |text| ==> left == start
      invariant left == start ==> bestEnd == start + maxTokens
      invariant left > start ==> left <= |text| && bestEnd == left && Fits(counter, text, start, left, maxTokens)
      invariant Monotone(counter) ==>
        forall m | start <= m && right < m <= |text| :: !Fits(counter, text, start, m, maxTokens)
      decreases right - left
    {
      var mid := (left + right + 1) / 2;
      var chunk := text[start..mid];
      var tokenCount := Count(counter, chunk);
      if tokenCount <= maxTokens {
        bestEnd := mid;
        left := mid;
      } else {
        if Monotone(counter) {
          forall m | start <= m && mid <= m <= |text|
            ensures !Fits(counter, text, start, m, maxTokens)
          {
            CountPrefixMonotone(counter, text[start..], mid - start, m - start);
            assert text[start..][..mid - start] == chunk;
            assert text[start..][..m - start] == text[start..m];
          }
        }
        right := mid - 1;
      }
    }
  }

  /** The three sentence-end patterns, in the order they are tried:
      `\.(?:\s|$)`, `[!?](?:\s|$)` and `\n\n`. */
  datatype Pattern = PeriodEnd | ExclaimOrQuestionEnd | BlankLine

  const SentencePatterns: seq<Pattern> := [PeriodEnd, ExclaimOrQuestionEnd, BlankLine]

  /** The punctuation a pattern starts with. */
  predicate IsMark(p: Pattern, c: char) {
    match p
    case PeriodEnd => c == '.'
    case ExclaimOrQuestionEnd => c == '!' || c == '?'
    case BlankLine => false
  }

  /** Length of the match of `p` starting at position `i` of `w`, 0 when there is none.
      `$` matches only at the end of `w`: a final newline is already matched by `\s`. */
  function MatchLen(p: Pattern, w: seq<char>, i: nat): (n: nat)
    ensures n <= 2
    ensures n > 0 ==> i + n <= |w|
  {
    if i >= |w| then 0
    else
      match p
      case BlankLine => if i + 1 < |w| && w[i] == '\n' && w[i + 1] == '\n' then 2 else 0
      case _ =>
        if !IsMark(p, w[i]) then 0
        else if i + 1 == |w| then 1
        else if IsSpace(w[i + 1]) then 2
        else 0
  }

  /** A match found by the scan: `w[start..end]`. */
  datatype Span = Span(start: nat, end: nat)

  /** `re.finditer(p, w)` from position `i`: leftmost matches, each search resuming
      where the previous match ended. */
  function Matches(p: Pattern, w: seq<char>, i: nat): (r: seq<Span>)
    ensures r == [] || i + |r| <= |w|
    decreases |w| - i
  {
    if i >= |w| then []
    else
      var n := MatchLen(p, w, i);
      if n > 0 then [Span(i, i + n)] + Matches(p, w, i + n)
      else Matches(p, w, i + 1)
  }

  /** Every span the scan reports lies inside `w`, at or after the scan position. */
  lemma {:induction false} MatchesInside(p: Pattern, w: seq<char>, i: nat)
    ensures var spans := Matches(p, w, i);
      forall k | 0 <= k < |spans| :: i <= spans[k].start < spans[k].end <= |w|
    decreases |w| - i
  {
    if i < |w| {
      var n := MatchLen(p, w, i);
      MatchesStep(p, w, i);
      if n > 0 {
        var rest := Matches(p, w, i + n);
        MatchesInside(p, w, i + n);
        var spans := [Span(i, i + n)] + rest;
        assert forall k | 0 < k < |spans| :: spans[k] == rest[k - 1];
      } else {
        MatchesInside(p, w, i + 1);
      }
    }
  }

  /** Each span is a match of `p` in `w`. */
  predicate AllMatch(p: Pattern, w: seq<char>, spans: seq<Span>) {
    forall k | 0 <= k < |spans| :: spans[k].end == spans[k].start + MatchLen(p, w, spans[k].start)
  }

  /** The spans come in order without overlapping. */
  predicate Ordered(spans: seq<Span>) {
    forall k | 0 <= k < |spans| - 1 :: spans[k].end <= spans[k + 1].start
  }

  /** The scan takes one step from `i`: a match there, or nothing and a move on. */
  lemma MatchesStep(p: Pattern, w: seq<char>, i: nat)
    requires i < |w|
    ensures var n := MatchLen(p, w, i);
      Matches(p, w, i) == if n > 0 then [Span(i, i + n)] + Matches(p, w, i + n) else Matches(p, w, i + 1)
  {
  }

  /** Every span the scan finds is a match of the pattern. */
  lemma {:induction false} MatchesAreMatches(p: Pattern, w: seq<char>, i: nat)
    ensures AllMatch(p, w, Matches(p, w, i))
    decreases |w| - i
  {
    if i < |w| {
      var n := MatchLen(p, w, i);
      MatchesStep(p, w, i);
      if n > 0 {
        var rest := Matches(p, w, i + n);
        MatchesAreMatches(p, w, i + n);
        AllMatchCons(p, w, Span(i, i + n), rest);
      } else {
        MatchesAreMatches(p, w, i + 1);
      }
    }
  }

  lemma AllMatchCons(p: Pattern, w: seq<char>, s: Span, rest: seq<Span>)
    requires s.end == s.start + MatchLen(p, w, s.start)
    requires AllMatch(p, w, rest)
    ensures AllMatch(p, w, [s] + rest)
  {
    var spans := [s] + rest;
    forall k | 0 < k < |spans|
      ensures spans[k].end == spans[k].start + MatchLen(p, w, spans[k].start)
    {
      assert spans[k] == rest[k - 1];
    }
  }

  /** The spans the scan finds come in order without overlapping. */
  lemma {:induction false} MatchesOrdered(p: Pattern, w: seq<char>, i: nat)
    ensures Ordered(Matches(p, w, i))
    decreases |w| - i
  {
    if i < |w| {
      var n := MatchLen(p, w, i);
      MatchesStep(p, w, i);
      if n > 0 {
        var rest := Matches(p, w, i + n);
        MatchesOrdered(p, w, i + n);
        MatchesInside(p, w, i + n);
        var spans := [Span(i, i + n)] + rest;
        forall k | 0 < k < |spans| - 1
          ensures spans[k].end <= spans[k + 1].start
        {
          assert spans[k] == rest[k - 1] && spans[k + 1] == rest[k];
        }
      } else {
        MatchesOrdered(p, w, i + 1);
      }
    }
  }

  /** The pattern matches nowhere at or after position `k`. */
  predicate NoMatchFrom(p: Pattern, w: seq<char>, k: nat)
    decreases |w| - k
  {
    k >= |w| || (MatchLen(p, w, k) == 0 && NoMatchFrom(p, w, k + 1))
  }

  lemma {:induction false} NoMatchFromAt(p: Pattern, w: seq<char>, k: nat, j: nat)
    requires NoMatchFrom(p, w, k) && k <= j
    ensures MatchLen(p, w, j) == 0
    decreases j - k
  {
    if k < j && k < |w| {
      NoMatchFromAt(p, w, k + 1, j);
    }
  }

  lemma {:induction false} NoMatchFromAll(p: Pattern, w: seq<char>, k: nat)
    requires forall j | k <= j < |w| :: MatchLen(p, w, j) == 0
    ensures NoMatchFrom(p, w, k)
    decreases |w| - k
  {
    if k < |w| {
      NoMatchFromAll(p, w, k + 1);
    }
  }

  /** The scan finds nothing exactly when the pattern matches nowhere from `i` on. */
  lemma {:induction false} MatchesEmpty(p: Pattern, w: seq<char>, i: nat)
    ensures Matches(p, w, i) == [] <==> NoMatchFrom(p, w, i)
    decreases |w| - i
  {
    if i < |w| && MatchLen(p, w, i) == 0 {
      MatchesEmpty(p, w, i + 1);
    }
  }

  /** After the last span found, the pattern matches nowhere: a later match would have
      been found by the scan. */
  lemma {:induction false} MatchesLastIsLast(p: Pattern, w: seq<char>, i: nat)
    requires Matches(p, w, i) != []
    ensures var spans := Matches(p, w, i); NoMatchFrom(p, w, spans[|spans| - 1].end)
    decreases |w| - i
  {
    var spans := Matches(p, w, i);
    var n := MatchLen(p, w, i);
    if n > 0 {
      var rest := Matches(p, w, i + n);
      assert spans == [Span(i, i + n)] + rest;
      if rest == [] {
        MatchesEmpty(p, w, i + n);
      } else {
        MatchesLastIsLast(p, w, i + n);
        assert spans[|spans| - 1] == rest[|rest| - 1];
      }
    } else {
      MatchesLastIsLast(p, w, i + 1);
    }
  }

  /** The last span the scan reports ends inside `w`, after its start. */
  lemma MatchesLastInside(p: Pattern, w: seq<char>)
    requires Matches(p, w, 0) != []
    ensures var spans := Matches(p, w, 0); 0 < spans[|spans| - 1].end <= |w|
  {
    var spans := Matches(p, w, 0);
    MatchesInside(p, w, 0);
    assert 0 <= spans[|spans| - 1].start;
  }

  /** Trying the patterns in order, the end of the last match of the first pattern that
      matches at all. */
  function FirstPatternLastEnd(pats: seq<Pattern>, w: seq<char>): (r: Option<nat>)
    ensures r.Some? ==> 0 < r.value <= |w|
  {
    if pats == [] then None
    else
      var spans := Matches(pats[0], w, 0);
      if spans != [] then
        MatchesLastInside(pats[0], w);
        Some(spans[|spans| - 1].end)
      else FirstPatternLastEnd(pats[1..], w)
  }

  /** `_find_sentence_boundary`: searches `text[searchStart:maxEnd]` and returns an
      absolute position; the result is `maxEnd` or lies in `(searchStart, maxEnd]`
      (and inside the text). */
  function SentenceBoundary(text: seq<char>, searchStart: nat, maxEnd: nat): (r: nat)
    ensures r == maxEnd || (searchStart < r <= maxEnd && r <= |text|)
  {
    match FirstPatternLastEnd(SentencePatterns, Slice(text, searchStart, maxEnd))
    case Some(e) => searchStart + e
    case None => maxEnd
  }

  /** The pattern list tried in order, written out. */
  lemma SentenceBoundaryUnfold(text: seq<char>, searchStart: nat, maxEnd: nat)
    ensures var w := Slice(text, searchStart, maxEnd);
      var m1 := Matches(PeriodEnd, w, 0);
      var m2 := Matches(ExclaimOrQuestionEnd, w, 0);
      var m3 := Matches(BlankLine, w, 0);
      SentenceBoundary(text, searchStart, maxEnd)
        == if m1 != [] then searchStart + m1[|m1| - 1].end
           else if m2 != [] then searchStart + m2[|m2| - 1].end
           else if m3 != [] then searchStart + m3[|m3| - 1].end
           else maxEnd
  {
    var w := Slice(text, searchStart, maxEnd);
    var m1 := Matches(PeriodEnd, w, 0);
    var m2 := Matches(ExclaimOrQuestionEnd, w, 0);
    var m3 := Matches(BlankLine, w, 0);
    var tail := SentencePatterns[1..];
    assert tail == [ExclaimOrQuestionEnd, BlankLine];
    assert tail[1..] == [BlankLine];
    assert tail[1..][1..] == [];
    assert FirstPatternLastEnd(SentencePatterns, w)
      == if m1 != [] then Some(m1[|m1| - 1].end) else FirstPatternLastEnd(tail, w);
    assert FirstPatternLastEnd(tail, w)
      == if m2 != [] then Some(m2[|m2| - 1].end) else FirstPatternLastEnd(tail[1..], w);
    assert FirstPatternLastEnd(tail[1..], w)
      == if m3 != [] then Some(m3[|m3| - 1].end) else FirstPatternLastEnd(tail[1..][1..], w);
  }

  /** For the punctuation patterns the last match found by the scan is the last place
      where the pattern matches at all: the scan cannot skip one. */
  lemma LastSpanIsLastMark(p: Pattern, w: seq<char>, j: nat)
    requires p != BlankLine
    requires Matches(p, w, 0) != []
    requires var spans := Matches(p, w, 0); spans[|spans| - 1].start < j
    ensures MatchLen(p, w, j) == 0
  {
    var spans := Matches(p, w, 0);
    var last := spans[|spans| - 1];
    LastSpan(p, w);
    if j < last.end {
      assert MatchLen(p, w, last.start) == 2;
      assert j == last.start + 1 && IsSpace(w[j]);
    }
  }

  /** The scan finds a match of a punctuation pattern that is the last one in `w`. */
  lemma LastMarkEnd(p: Pattern, w: seq<char>, j: nat)
    requires p != BlankLine
    requires MatchLen(p, w, j) > 0
    requires forall j' | j < j' :: MatchLen(p, w, j') == 0
    ensures var spans := Matches(p, w, 0);
      spans != [] && spans[|spans| - 1].end == j + MatchLen(p, w, j)
  {
    var spans := Matches(p, w, 0);
    MatchesEmpty(p, w, 0);
    if spans == [] {
      NoMatchFromAt(p, w, 0, j);
    }
    MatchesAreMatches(p, w, 0);
    MatchesInside(p, w, 0);
    var last := spans[|spans| - 1];
    if last.start < j {
      LastSpanIsLastMark(p, w, j);
    }
    assert last.start == j;
  }

  /** A `.` followed by whitespace or the end of the window decides the boundary: the
      result is the end of the LAST such match, past the `.` and the whitespace that
      follows it (just past the `.` only at the window end), even if a `!` or `?` comes
      later. */
  lemma PeriodWins(text: seq<char>, searchStart: nat, maxEnd: nat, j: nat)
    requires var w := Slice(text, searchStart, maxEnd);
      MatchLen(PeriodEnd, w, j) > 0 && forall j' | j < j' :: MatchLen(PeriodEnd, w, j') == 0
    ensures SentenceBoundary(text, searchStart, maxEnd)
      == searchStart + j + MatchLen(PeriodEnd, Slice(text, searchStart, maxEnd), j)
  {
    LastMarkEnd(PeriodEnd, Slice(text, searchStart, maxEnd), j);
    SentenceBoundaryUnfold(text, searchStart, maxEnd);
  }

  /** Without a sentence-ending `.`, the last `!` or `?` followed by whitespace or the
      window end decides the boundary: the result is the end of that match, past the
      whitespace that follows the mark. */
  lemma ExclaimOrQuestionWins(text: seq<char>, searchStart: nat, maxEnd: nat, j: nat)
    requires var w := Slice(text, searchStart, maxEnd);
      (forall i | 0 <= i < |w| :: MatchLen(PeriodEnd, w, i) == 0)
      && MatchLen(ExclaimOrQuestionEnd, w, j) > 0
      && forall j' | j < j' :: MatchLen(ExclaimOrQuestionEnd, w, j') == 0
    ensures SentenceBoundary(text, searchStart, maxEnd)
      == searchStart + j + MatchLen(ExclaimOrQuestionEnd, Slice(text, searchStart, maxEnd), j)
  {
    var w := Slice(text, searchStart, maxEnd);
    LastMarkEnd(ExclaimOrQuestionEnd, w, j);
    NoMatchFromAll(PeriodEnd, w, 0);
    MatchesEmpty(PeriodEnd, w, 0);
    SentenceBoundaryUnfold(text, searchStart, maxEnd);
  }

  /** The last span the scan finds is a match, and nothing matches after it. */
  lemma LastSpan(p: Pattern, w: seq<char>)
    requires Matches(p, w, 0) != []
    ensures var spans := Matches(p, w, 0); var last := spans[|spans| - 1];
      last.end == last.start + MatchLen(p, w, last.start)
      && forall j | last.end <= j :: MatchLen(p, w, j) == 0
  {
    var spans := Matches(p, w, 0);
    var last := spans[|spans| - 1];
    MatchesAreMatches(p, w, 0);
    MatchesLastIsLast(p, w, 0);
    forall j | last.end <= j
      ensures MatchLen(p, w, j) == 0
    {
      NoMatchFromAt(p, w, last.end, j);
    }
  }

  /** Only when neither punctuation pattern matches is a blank line used; the result is
      then the end of the last of the non-overlapping `\n\n` matches found left to right,
      so it is right after a `\n\n` and no further `\n\n` starts at or after it. On a run
      of three or more newlines it is that scan, not the last two characters, that fixes
      which pair counts. */
  lemma BlankLineLast(text: seq<char>, searchStart: nat, maxEnd: nat, i: nat)
    requires var w := Slice(text, searchStart, maxEnd);
      (forall j | 0 <= j < |w| :: MatchLen(PeriodEnd, w, j) == 0)
      && (forall j | 0 <= j < |w| :: MatchLen(ExclaimOrQuestionEnd, w, j) == 0)
      && MatchLen(BlankLine, w, i) > 0
    ensures var w := Slice(text, searchStart, maxEnd);
      var e := SentenceBoundary(text, searchStart, maxEnd) - searchStart;
      var spans := Matches(BlankLine, w, 0);
      spans != [] && e == spans[|spans| - 1].end
      && 2 <= e <= |w| && w[e - 2] == '\n' && w[e - 1] == '\n'
      && forall j | e <= j :: MatchLen(BlankLine, w, j) == 0
  {
    var w := Slice(text, searchStart, maxEnd);
    assert Matches(PeriodEnd, w, 0) == [] by {
      NoMatchFromAll(PeriodEnd, w, 0);
      MatchesEmpty(PeriodEnd, w, 0);
    }
    assert Matches(ExclaimOrQuestionEnd, w, 0) == [] by {
      NoMatchFromAll(ExclaimOrQuestionEnd, w, 0);
      MatchesEmpty(ExclaimOrQuestionEnd, w, 0);
    }
    var spans := Matches(BlankLine, w, 0);
    assert spans != [] by {
      MatchesEmpty(BlankLine, w, 0);
      if spans == [] {
        NoMatchFromAt(BlankLine, w, 0, i);
      }
    }
    LastSpan(BlankLine, w);
    MatchesInside(BlankLine, w, 0);
    SentenceBoundaryUnfold(text, searchStart, maxEnd);
  }

  /** With no match of any pattern the search returns `maxEnd` unchanged. */
  lemma NoSentenceEnd(text: seq<char>, searchStart: nat, maxEnd: nat)
    requires var w := Slice(text, searchStart, maxEnd);
      forall p, i | 0 <= i < |w| :: MatchLen(p, w, i) == 0
    ensures SentenceBoundary(text, searchStart, maxEnd) == maxEnd
  {
    var w := Slice(text, searchStart, maxEnd);
    NoMatchFromAll(PeriodEnd, w, 0);
    NoMatchFromAll(ExclaimOrQuestionEnd, w, 0);
    NoMatchFromAll(BlankLine, w, 0);
    MatchesEmpty(PeriodEnd, w, 0);
    MatchesEmpty(ExclaimOrQuestionEnd, w, 0);
    MatchesEmpty(BlankLine, w, 0);
    SentenceBoundaryUnfold(text, searchStart, maxEnd);
  }
}
