/**
 * `ContentProcessor._clean_text`: collapse every whitespace run to one space, delete
 * the control characters `[\x00-\x08\x0b\x0c\x0e-\x1f\x7f-\x9f]`, then strip.
 */
module Cleaning {
  import opened Strings

  /** A character the second substitution of `_clean_text` deletes. */
  predicate IsControl(c: char) {
    var n := c as int;
    (0x00 <= n <= 0x08) || n == 0x0b || n == 0x0c || (0x0e <= n <= 0x1f) || (0x7f <= n <= 0x9f)
  }

  /** Every whitespace character of `s` is the plain space. */
  predicate PlainSpacesOnly(s: seq<char>) {
    forall i | 0 <= i < |s| :: IsSpace(s[i]) ==> s[i] == ' '
  }

  predicate NoControl(s: seq<char>) {
    forall i | 0 <= i < |s| :: !IsControl(s[i])
  }

  /** `re.sub(r'\s+', ' ', s)`: every maximal whitespace run becomes a single space. */
  function CollapseWhitespace(s: seq<char>): (r: seq<char>)
    ensures r == [] <==> s == []
    ensures r != [] ==> (IsSpace(r[0]) <==> IsSpace(s[0]))
    decreases |s|
  {
    if s == [] then []
    else if IsSpace(s[0]) then [' '] + CollapseWhitespace(TrimLeft(s))
    else [s[0]] + CollapseWhitespace(s[1..])
  }

  /** No two whitespace characters of `s` are adjacent. */
  predicate NoAdjacentSpaces(s: seq<char>) {
    forall i | 0 <= i < |s| - 1 :: !(IsSpace(s[i]) && IsSpace(s[i + 1]))
  }

  /** After collapsing, every whitespace character is the plain space and no two
      whitespace characters are adjacent. */
  lemma {:induction false} CollapseShape(s: seq<char>)
    ensures PlainSpacesOnly(CollapseWhitespace(s)) && NoAdjacentSpaces(CollapseWhitespace(s))
    decreases |s|
  {
    if s != [] {
      if IsSpace(s[0]) {
        var l := TrimLeft(s);
        CollapseShape(l);
        ConsShape(' ', CollapseWhitespace(l));
      } else {
        CollapseShape(s[1..]);
        ConsShape(s[0], CollapseWhitespace(s[1..]));
      }
    }
  }

  lemma ConsShape(c: char, tail: seq<char>)
    requires PlainSpacesOnly(tail) && NoAdjacentSpaces(tail)
    requires IsSpace(c) ==> c == ' ' && (tail == [] || !IsSpace(tail[0]))
    ensures PlainSpacesOnly([c] + tail) && NoAdjacentSpaces([c] + tail)
  {
    var r := [c] + tail;
    assert forall i | 1 <= i < |r| :: r[i] == tail[i - 1];
  }

  /** Collapsing whitespace adds no control character. */
  lemma {:induction false} CollapseKeepsNoControl(s: seq<char>)
    requires NoControl(s)
    ensures NoControl(CollapseWhitespace(s))
    decreases |s|
  {
    if s != [] {
      if IsSpace(s[0]) {
        var l := TrimLeft(s);
        NoControlSuffix(s, |s| - |l|);
        CollapseKeepsNoControl(l);
        ConsNoControl(' ', CollapseWhitespace(l));
      } else {
        NoControlSuffix(s, 1);
        CollapseKeepsNoControl(s[1..]);
        ConsNoControl(s[0], CollapseWhitespace(s[1..]));
      }
    }
  }

  lemma NoControlSuffix(s: seq<char>, k: nat)
    requires NoControl(s) && k <= |s|
    ensures NoControl(s[k..])
  {
    assert forall i | 0 <= i < |s| - k :: s[k..][i] == s[k + i];
  }

  lemma ConsNoControl(c: char, tail: seq<char>)
    requires !IsControl(c) && NoControl(tail)
    ensures NoControl([c] + tail)
  {
    var r := [c] + tail;
    assert forall i | 1 <= i < |r| :: r[i] == tail[i - 1];
  }

  /** `re.sub(r'[\x00-\x08\x0b\x0c\x0e-\x1f\x7f-\x9f]', '', s)`. */
  function DeleteControl(s: seq<char>): (r: seq<char>)
    ensures NoControl(r)
  {
    if s == [] then []
    else
      var rest := DeleteControl(s[1..]);
      if IsControl(s[0]) then rest
      else ConsNoControl(s[0], rest); [s[0]] + rest
  }

  /** Deleting control characters adds no whitespace of its own. */
  lemma {:induction false} DeleteControlKeepsPlainSpaces(s: seq<char>)
    requires PlainSpacesOnly(s)
    ensures PlainSpacesOnly(DeleteControl(s))
  {
    if s != [] {
      var rest := s[1..];
      assert forall i | 0 <= i < |rest| :: rest[i] == s[i + 1];
      DeleteControlKeepsPlainSpaces(rest);
      var r := DeleteControl(s);
      var tail := DeleteControl(rest);
      assert forall i | 1 <= i < |r| && !IsControl(s[0]) :: r[i] == tail[i - 1];
    }
  }

  /** Text without control characters passes through unchanged. */
  lemma {:induction false} DeleteControlNoop(s: seq<char>)
    requires NoControl(s)
    ensures DeleteControl(s) == s
  {
    if s != [] {
      NoControlSuffix(s, 1);
      DeleteControlNoop(s[1..]);
      assert s == [s[0]] + s[1..];
    }
  }

  /** `_clean_text`: the result has no whitespace at either end, no control character,
      and the only whitespace character left in it is the plain space, so in particular
      it holds no newline or tab. */
  function CleanText(text: seq<char>): (r: seq<char>)
    ensures r == [] || (!IsSpace(r[0]) && !IsSpace(r[|r| - 1]))
    ensures NoControl(r)
    ensures PlainSpacesOnly(r)
  {
    var kept := DeleteControl(CollapseWhitespace(text));
    CollapseShape(text);
    DeleteControlKeepsPlainSpaces(CollapseWhitespace(text));
    StripKeepsNoControl(kept);
    StripKeepsPlainSpaces(kept);
    Strip(kept)
  }

  lemma StripKeepsNoControl(s: seq<char>)
    requires NoControl(s)
    ensures NoControl(Strip(s))
  {
    var r := Strip(s);
    var k := StripStart(s);
    StripSlice(s);
    forall i | 0 <= i < |r| ensures !IsControl(r[i]) {
      assert r[i] == s[k + i];
    }
  }

  lemma StripKeepsPlainSpaces(s: seq<char>)
    requires PlainSpacesOnly(s)
    ensures PlainSpacesOnly(Strip(s))
  {
    var r := Strip(s);
    var k := StripStart(s);
    StripSlice(s);
    forall i | 0 <= i < |r| ensures IsSpace(r[i]) ==> r[i] == ' ' {
      assert r[i] == s[k + i];
    }
  }

  /** The text with every whitespace and control character taken out: what cleaning
      must not lose. */
  function Visible(s: seq<char>): seq<char>
  {
    if s == [] then []
    else (if IsSpace(s[0]) || IsControl(s[0]) then [] else [s[0]]) + Visible(s[1..])
  }

  lemma {:induction false} VisibleAppend(a: seq<char>, b: seq<char>)
    ensures Visible(a + b) == Visible(a) + Visible(b)
  {
    if a == [] {
      assert a + b == b;
    } else {
      assert (a + b)[0] == a[0];
      assert (a + b)[1..] == a[1..] + b;
      VisibleAppend(a[1..], b);
    }
  }

  lemma {:induction false} VisibleOfSpaces(s: seq<char>)
    requires forall i | 0 <= i < |s| :: IsSpace(s[i])
    ensures Visible(s) == []
  {
    if s != [] { VisibleOfSpaces(s[1..]); }
  }

  /** Collapsing whitespace keeps every visible character, in order. */
  lemma {:induction false} CollapseKeepsVisible(s: seq<char>)
    ensures Visible(CollapseWhitespace(s)) == Visible(s)
    decreases |s|
  {
    if s == [] {
    } else if IsSpace(s[0]) {
      var l := TrimLeft(s);
      var k := |s| - |l|;
      TrimLeftDropsSpaces(s);
      CollapseKeepsVisible(l);
      assert s == s[..k] + l;
      VisibleAppend(s[..k], l);
      VisibleOfSpaces(s[..k]);
      VisibleAppend([' '], CollapseWhitespace(l));
    } else {
      CollapseKeepsVisible(s[1..]);
      VisibleAppend([s[0]], CollapseWhitespace(s[1..]));
    }
  }

  /** Deleting control characters keeps every visible character, in order. */
  lemma {:induction false} DeleteControlKeepsVisible(s: seq<char>)
    ensures Visible(DeleteControl(s)) == Visible(s)
  {
    if s != [] {
      DeleteControlKeepsVisible(s[1..]);
      VisibleAppend(if IsControl(s[0]) then [] else [s[0]], DeleteControl(s[1..]));
    }
  }

  /** Stripping keeps every visible character, in order. */
  lemma StripKeepsVisible(s: seq<char>)
    ensures Visible(Strip(s)) == Visible(s)
  {
    TrimLeftKeepsVisible(s);
    TrimRightKeepsVisible(TrimLeft(s));
  }

  lemma {:induction false} TrimLeftKeepsVisible(s: seq<char>)
    ensures Visible(TrimLeft(s)) == Visible(s)
  {
    if s != [] && IsSpace(s[0]) {
      TrimLeftKeepsVisible(s[1..]);
    }
  }

  lemma {:induction false} TrimRightKeepsVisible(s: seq<char>)
    ensures Visible(TrimRight(s)) == Visible(s)
  {
    if s != [] && IsSpace(s[|s| - 1]) {
      var front := s[..|s| - 1];
      TrimRightKeepsVisible(front);
      assert s == front + [s[|s| - 1]];
      VisibleAppend(front, [s[|s| - 1]]);
    }
  }

  /** `_clean_text` loses nothing but whitespace and control characters: the
      visible characters of its output are exactly those of its input, in order. */
  lemma CleanTextKeepsVisible(text: seq<char>)
    ensures Visible(CleanText(text)) == Visible(text)
  {
    var collapsed := CollapseWhitespace(text);
    CollapseKeepsVisible(text);
    DeleteControlKeepsVisible(collapsed);
    StripKeepsVisible(DeleteControl(collapsed));
  }

  /** On text without control characters the output never holds two spaces in a row;
      double spaces can only come from a control character deleted between two runs. */
  lemma CleanTextSingleSpaced(text: seq<char>)
    requires NoControl(text)
    ensures var r := CleanText(text);
      forall i | 0 <= i < |r| - 1 :: !(r[i] == ' ' && r[i + 1] == ' ')
  {
    var collapsed := CollapseWhitespace(text);
    CollapseShape(text);
    CollapseKeepsNoControl(text);
    DeleteControlNoop(collapsed);
    StripKeepsNoAdjacentSpaces(collapsed);
  }

  lemma StripKeepsNoAdjacentSpaces(s: seq<char>)
    requires NoAdjacentSpaces(s)
    ensures var r := Strip(s);
      forall i | 0 <= i < |r| - 1 :: !(r[i] == ' ' && r[i + 1] == ' ')
  {
    var r := Strip(s);
    var k := StripStart(s);
    assert r == s[k..k + |r|] by { StripSlice(s); }
    forall i | 0 <= i < |r| - 1 ensures !(r[i] == ' ' && r[i + 1] == ' ') {
      assert r[i] == s[k + i] && r[i + 1] == s[k + i + 1];
    }
  }

  /** On text without control characters, `_clean_text` is `' '.join(text.split())`:
      the words of the text, each whitespace run between two of them turned into exactly
      one space, and nothing before the first or after the last. */
  lemma CleanTextJoinsWords(text: seq<char>)
    requires NoControl(text)
    ensures CleanText(text) == Join(' ', Words(text))
  {
    var collapsed := CollapseWhitespace(text);
    CollapseKeepsNoControl(text);
    DeleteControlNoop(collapsed);
    assert CleanText(text) == TrimRight(TrimLeft(collapsed));
    TrimLeftCollapse(text);
    var t := TrimLeft(text);
    CollapseTrimRight(t);
    WordsTrimLeft(text);
  }

  /** Leading whitespace collapses to a space that `lstrip()` then removes. */
  lemma TrimLeftCollapse(s: seq<char>)
    ensures TrimLeft(CollapseWhitespace(s)) == CollapseWhitespace(TrimLeft(s))
  {
    if s != [] {
      var c := CollapseWhitespace(s);
      if IsSpace(s[0]) {
        var rest := CollapseWhitespace(TrimLeft(s));
        assert c[1..] == rest;
        assert rest == [] || !IsSpace(rest[0]);
        assert TrimLeft(rest) == rest;
      } else {
        assert TrimLeft(s) == s;
        assert TrimLeft(c) == c;
      }
    }
  }

  /** The leading run of non-whitespace characters passes through the collapse
      unchanged. */
  lemma {:induction false} CollapseLeadingWord(t: seq<char>)
    ensures CollapseWhitespace(t) == t[..WordLen(t)] + CollapseWhitespace(t[WordLen(t)..])
    decreases |t|
  {
    var n := WordLen(t);
    if t != [] && !IsSpace(t[0]) {
      var tail := t[1..];
      var m := WordLen(tail);
      CollapseLeadingWord(tail);
      CollapseVisibleFirst(t[0], tail);
      assert [t[0]] + tail == t;
      WordLenCons(t);
      SplitAfterHead(t, m);
      Regroup(CollapseWhitespace(t), CollapseWhitespace(tail), CollapseWhitespace(t[n..]),
              [t[0]], tail[..m], t[..n]);
    } else {
      Regroup(CollapseWhitespace(t), CollapseWhitespace(t), CollapseWhitespace(t[n..]),
              [], [], t[..n]);
    }
  }

  /** Text that does not start with whitespace collapses, once its trailing space is
      stripped, to its words joined by single spaces. */
  lemma {:induction false} CollapseTrimRight(t: seq<char>)
    requires t == [] || !IsSpace(t[0])
    ensures TrimRight(CollapseWhitespace(t)) == Join(' ', Words(t))
    decreases |t|
  {
    if t != [] {
      var n := WordLen(t);
      var w := t[..n];
      var rest := t[n..];
      WordsCons(t);
      FirstWord(t);
      TrimRightWord(w);
      CollapseLeadingWord(t);
      if rest == [] {
        assert CollapseWhitespace(t) == w + [];
        assert Words(t) == [w] + [];
      } else {
        WordLenNoSpace(t);
        assert rest[0] == t[n];
        var r2 := TrimLeft(rest);
        CollapseSpaceFirst(rest);
        Regroup(CollapseWhitespace(t), CollapseWhitespace(rest), CollapseWhitespace(r2),
                w, [' '], w + [' ']);
        WordsTrimLeft(rest);
        if r2 == [] {
          assert CollapseWhitespace(t) == (w + [' ']) + [];
          assert Words(t) == [w] + [];
        } else {
          CollapseTrimRight(r2);
          JoinAfterWord(w, r2);
        }
      }
    }
  }

  /** A whitespace character at the front collapses, with the run it starts, to one space. */
  lemma CollapseSpaceFirst(s: seq<char>)
    requires s != [] && IsSpace(s[0])
    ensures CollapseWhitespace(s) == [' '] + CollapseWhitespace(TrimLeft(s))
  {
  }

  /** The step of `CollapseTrimRight` past the first word `w` when more words follow in
      `r2`. */
  lemma JoinAfterWord(w: seq<char>, r2: seq<char>)
    requires r2 != [] && !IsSpace(r2[0])
    requires TrimRight(CollapseWhitespace(r2)) == Join(' ', Words(r2))
    ensures TrimRight((w + [' ']) + CollapseWhitespace(r2)) == Join(' ', [w] + Words(r2))
  {
    var ws2 := Words(r2);
    assert ws2 != [] && ws2[0] != [] by {
      assert TrimLeft(r2) == r2;
      FirstWord(r2);
    }
    assert ws2 == [ws2[0]] + ws2[1..];
    JoinCons(' ', ws2[0], ws2[1..]);
    TrimRightAppend(w + [' '], CollapseWhitespace(r2));
    JoinCons(' ', w, ws2);
  }

  /** `_clean_text` is not idempotent: a control character `c` between two whitespace
      runs leaves two spaces after the first pass (`"a \x01 b"` becomes `"a  b"`), and a
      second pass collapses them. */
  lemma CleanTextNotIdempotent(a: char, c: char, b: char)
    requires !IsSpace(a) && !IsControl(a) && !IsSpace(b) && !IsControl(b)
    requires IsControl(c) && !IsSpace(c)
    ensures CleanText([a, ' ', c, ' ', b]) == [a, ' ', ' ', b]
    ensures CleanText(CleanText([a, ' ', c, ' ', b])) == [a, ' ', b]
  {
    FirstPass(a, c, b);
    SecondPass(a, b);
  }

  lemma FirstPass(a: char, c: char, b: char)
    requires !IsSpace(a) && !IsControl(a) && !IsSpace(b) && !IsControl(b)
    requires IsControl(c) && !IsSpace(c)
    ensures CleanText([a, ' ', c, ' ', b]) == [a, ' ', ' ', b]
  {
    var s := [a, ' ', c, ' ', b];
    var t := [a, ' ', ' ', b];
    CollapseKeepsControlBetweenRuns(a, c, b);
    DeleteControlBetweenRuns(a, c, b);
    StripOfVisibleEnds(t);
  }

  lemma CollapseKeepsControlBetweenRuns(a: char, c: char, b: char)
    requires !IsSpace(a) && !IsSpace(b) && !IsSpace(c)
    ensures CollapseWhitespace([a, ' ', c, ' ', b]) == [a, ' ', c, ' ', b]
  {
    CollapseSettled([a, ' ', c, ' ', b]);
  }

  /** Text whose whitespace is already single plain spaces is left as it is. */
  lemma {:induction false} CollapseSettled(s: seq<char>)
    requires PlainSpacesOnly(s) && NoAdjacentSpaces(s)
    ensures CollapseWhitespace(s) == s
    decreases |s|
  {
    if s != [] {
      var rest := s[1..];
      SettledTail(s);
      CollapseSettled(rest);
      if IsSpace(s[0]) {
        assert TrimLeft(rest) == rest;
        assert TrimLeft(s) == rest;
      }
      assert s == [s[0]] + rest;
    }
  }

  /** Dropping the first character of settled text leaves settled text; a leading
      space is followed by a non-space. */
  lemma SettledTail(s: seq<char>)
    requires s != []
    requires PlainSpacesOnly(s) && NoAdjacentSpaces(s)
    ensures PlainSpacesOnly(s[1..]) && NoAdjacentSpaces(s[1..])
    ensures IsSpace(s[0]) ==> |s| == 1 || !IsSpace(s[1])
  {
    var rest := s[1..];
    assert forall i | 0 <= i < |rest| :: rest[i] == s[i + 1];
  }

  lemma CollapseVisibleFirst(x: char, rest: seq<char>)
    requires !IsSpace(x)
    ensures CollapseWhitespace([x] + rest) == [x] + CollapseWhitespace(rest)
  {
    assert ([x] + rest)[1..] == rest;
  }

  lemma DeleteControlBetweenRuns(a: char, c: char, b: char)
    requires !IsControl(a) && !IsControl(b) && IsControl(c)
    ensures DeleteControl([a, ' ', c, ' ', b]) == [a, ' ', ' ', b]
  {
    var t3 := [' ', b];
    assert DeleteControl(t3) == t3 by {
      assert NoControl(t3);
      DeleteControlNoop(t3);
    }
    var t2 := [c] + t3;
    assert t2[1..] == t3;
    assert DeleteControl(t2) == t3;
    var t1 := [' '] + t2;
    assert t1[1..] == t2;
    assert DeleteControl(t1) == [' '] + t3;
    var s := [a] + t1;
    assert s[1..] == t1;
    assert DeleteControl(s) == [a] + [' '] + t3;
    assert s == [a, ' ', c, ' ', b];
  }

  lemma SecondPass(a: char, b: char)
    requires !IsSpace(a) && !IsControl(a) && !IsSpace(b) && !IsControl(b)
    ensures CleanText([a, ' ', ' ', b]) == [a, ' ', b]
  {
    var t := [a, ' ', ' ', b];
    var u := [a, ' ', b];
    assert CollapseWhitespace(t) == u by {
      CollapseDoubleSpaceFirst(b);
      CollapseVisibleFirst(a, [' ', ' ', b]);
      assert [a] + [' ', ' ', b] == t;
      assert [a] + [' ', b] == u;
    }
    assert DeleteControl(u) == u by {
      assert NoControl(u);
      DeleteControlNoop(u);
    }
    StripOfVisibleEnds(u);
  }

  lemma CollapseDoubleSpaceFirst(b: char)
    requires !IsSpace(b)
    ensures CollapseWhitespace([' ', ' ', b]) == [' ', b]
  {
    var s := [' ', ' ', b];
    assert TrimLeft(s) == [b] by {
      assert s[1..] == [' ', b];
      assert [' ', b][1..] == [b];
      assert TrimLeft([b]) == [b];
    }
    CollapseSettled([b]);
  }
}
