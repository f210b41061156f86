/**
 * `ContentProcessor._extract_vtt_text` after the file has been read: a line filter over
 * a WebVTT subtitle file that keeps the cue text and drops the `WEBVTT` header, cue
 * timing lines (those holding `-->`), numeric cue identifiers and blank lines. It is a
 * heuristic, not a conforming WebVTT parser.
 */
module Vtt {
  import opened Strings

  /** `line.startswith(prefix)`. */
  predicate StartsWith(line: seq<char>, prefix: seq<char>) {
    |prefix| <= |line| && line[..|prefix|] == prefix
  }

  /** `-->` occurs in `line` at position `i`. */
  predicate ArrowAt(line: seq<char>, i: nat) {
    i + 3 <= |line| && line[i] == '-' && line[i + 1] == '-' && line[i + 2] == '>'
  }

  /** `'-->' in line`. */
  predicate HasArrow(line: seq<char>) {
    exists i: nat | i < |line| :: ArrowAt(line, i)
  }

  /** `re.match(r'^\d+$', line)` on a stripped line, with `\d` read as an ASCII digit. */
  predicate AllDigits(line: seq<char>) {
    |line| >= 1 && forall i | 0 <= i < |line| :: IsDigit(line[i])
  }

  /** A stripped line the filter keeps: not empty, not the header, not a timing line,
      not a cue number. */
  predicate IsCueText(line: seq<char>) {
    line != [] && !StartsWith(line, "WEBVTT") && !HasArrow(line) && !AllDigits(line)
  }

  /** The stripped lines the filter keeps, in input order. */
  function KeptLines(lines: seq<seq<char>>): (r: seq<seq<char>>)
    ensures |r| <= |lines|
    ensures forall k | 0 <= k < |r| :: IsCueText(r[k])
  {
    if lines == [] then []
    else
      var prev := KeptLines(lines[..|lines| - 1]);
      var line := Strip(lines[|lines| - 1]);
      if IsCueText(line) then
        var r := prev + [line];
        CueTextSnoc(prev, line);
        r
      else prev
  }

  /** Appending a kept line to kept lines gives kept lines. */
  lemma CueTextSnoc(prev: seq<seq<char>>, line: seq<char>)
    requires forall k | 0 <= k < |prev| :: IsCueText(prev[k])
    requires IsCueText(line)
    ensures forall k | 0 <= k < |prev + [line]| :: IsCueText((prev + [line])[k])
  {
    forall k | 0 <= k < |prev + [line]|
      ensures IsCueText((prev + [line])[k])
    {
      if k < |prev| {
        assert (prev + [line])[k] == prev[k];
      } else {
        assert (prev + [line])[k] == line;
      }
    }
  }

  /** The text `_extract_vtt_text` returns for file content `content`. It is a single
      line: every newline of the file is gone. No timing line survives: it never contains
      `-->`, not even across the space that joins two kept lines. */
  function VttText(content: seq<char>): (r: seq<char>)
    ensures '\n' !in r
    ensures !HasArrow(r)
  {
    KeptTextClean(SplitLines(content));
    Join(' ', KeptLines(SplitLines(content)))
  }

  /** The space-join of the kept lines of newline-free lines has no newline and no `-->`. */
  lemma KeptTextClean(lines: seq<seq<char>>)
    requires forall k | 0 <= k < |lines| :: '\n' !in lines[k]
    ensures '\n' !in Join(' ', KeptLines(lines))
    ensures !HasArrow(Join(' ', KeptLines(lines)))
  {
    KeptLinesNoNewline(lines);
    JoinNoNewline(KeptLines(lines));
    JoinNoArrow(KeptLines(lines));
  }

  /** Lines the filter keeps: ordinary text, text that merely starts with digits, and
      a single-dash arrow. */
  lemma CueTextKept()
    ensures IsCueText("Hello there") && IsCueText("12 monkeys") && IsCueText("a -> b")
  {
    assert !IsDigit("12 monkeys"[2]) && !IsDigit("Hello there"[0]) && !IsDigit("a -> b"[0]);
    assert "Hello there"[..6] != "WEBVTT" && "12 monkeys"[..6] != "WEBVTT";
    assert !HasArrow("Hello there") by {
      forall i: nat | i < 11 ensures !ArrowAt("Hello there", i) {
      }
    }
    assert !HasArrow("12 monkeys") by {
      forall i: nat | i < 10 ensures !ArrowAt("12 monkeys", i) {
      }
    }
    assert !HasArrow("a -> b") by {
      forall i: nat | i < 6 ensures !ArrowAt("a -> b", i) {
      }
    }
  }

  /** Lines the filter drops: blank lines, the header (with or without a title), timing
      lines and cue numbers. */
  lemma CueTextDropped()
    ensures !IsCueText("") && !IsCueText("WEBVTT") && !IsCueText("WEBVTT - Lecture 1")
    ensures !IsCueText("00:00:01.000 --> 00:00:04.000") && !IsCueText("42")
  {
    assert ArrowAt("00:00:01.000 --> 00:00:04.000", 13);
    assert "WEBVTT - Lecture 1"[..6] == "WEBVTT";
  }

  /** `_extract_vtt_text` on already-read content: split on newlines, strip each line,
      keep the cue text lines and join them with single spaces. */
  method ExtractVttText(content: seq<char>) returns (text: seq<char>)
    ensures text == VttText(content)
    ensures '\n' !in text
    ensures !HasArrow(text)
  {
    var lines := SplitLines(content);
    var textLines: seq<seq<char>> := [];
    for i := 0 to |lines|
      invariant textLines == KeptLines(lines[..i])
    {
      assert lines[..i + 1][..i] == lines[..i];
      KeptLinesSnoc(lines[..i + 1]);
      var line := Strip(lines[i]);
      if !IsCueText(line) {
        continue;
      }
      textLines := textLines + [line];
    }
    assert lines[..|lines|] == lines;
    text := Join(' ', textLines);
    assert text == VttText(content);
  }

  /** The filter works line by line: filtering a concatenation filters each part. */
  lemma {:induction false} KeptLinesAppend(a: seq<seq<char>>, b: seq<seq<char>>)
    ensures KeptLines(a + b) == KeptLines(a) + KeptLines(b)
    decreases |b|
  {
    if b == [] {
      assert a + b == a;
    } else {
      var b', last := b[..|b| - 1], b[|b| - 1];
      assert b == b' + [last];
      assert a + b == (a + b') + [last];
      KeptLinesAppend(a, b');
      KeptLinesSnocOf(a + b', last);
      KeptLinesSnocOf(b', last);
      var extra := if IsCueText(Strip(last)) then [Strip(last)] else [];
      ConcatAssoc(KeptLines(a), KeptLines(b'), extra);
    }
  }

  /** The filter on lines ending with `last` keeps `last`, stripped, when it is cue text. */
  lemma KeptLinesSnocOf(front: seq<seq<char>>, last: seq<char>)
    ensures KeptLines(front + [last])
      == KeptLines(front) + if IsCueText(Strip(last)) then [Strip(last)] else []
  {
    assert (front + [last])[..|front|] == front;
  }

  lemma ConcatAssoc(x: seq<seq<char>>, y: seq<seq<char>>, z: seq<seq<char>>)
    ensures (x + y) + z == x + (y + z)
  {
  }

  /** Stripping a line without a newline leaves no newline. */
  lemma StripKeepsNoNewline(line: seq<char>)
    requires '\n' !in line
    ensures '\n' !in Strip(line)
  {
    var r := Strip(line);
    var k := StripStart(line);
    StripSlice(line);
    forall j | 0 <= j < |r| ensures r[j] != '\n' {
      assert r[j] == line[k + j];
    }
  }

  lemma {:induction false} KeptLinesNoNewline(lines: seq<seq<char>>)
    requires forall k | 0 <= k < |lines| :: '\n' !in lines[k]
    ensures forall k | 0 <= k < |KeptLines(lines)| :: '\n' !in KeptLines(lines)[k]
  {
    if lines != [] {
      var front := lines[..|lines| - 1];
      assert forall k | 0 <= k < |front| :: front[k] == lines[k];
      KeptLinesNoNewline(front);
      var line := Strip(lines[|lines| - 1]);
      StripKeepsNoNewline(lines[|lines| - 1]);
      var extra := if IsCueText(line) then [line] else [];
      KeptLinesSnoc(lines);
      NoNewlineAppend(KeptLines(front), extra);
    }
  }

  /** The filter's last step: the last line, stripped, is appended when it is cue text. */
  lemma KeptLinesSnoc(lines: seq<seq<char>>)
    requires lines != []
    ensures var line := Strip(lines[|lines| - 1]);
      KeptLines(lines) == KeptLines(lines[..|lines| - 1]) + if IsCueText(line) then [line] else []
  {
  }

  lemma NoNewlineAppend(a: seq<seq<char>>, b: seq<seq<char>>)
    requires forall k | 0 <= k < |a| :: '\n' !in a[k]
    requires forall k | 0 <= k < |b| :: '\n' !in b[k]
    ensures forall k | 0 <= k < |a + b| :: '\n' !in (a + b)[k]
  {
    forall k | 0 <= k < |a + b| ensures '\n' !in (a + b)[k] {
      if k < |a| {
        assert (a + b)[k] == a[k];
      } else {
        assert (a + b)[k] == b[k - |a|];
      }
    }
  }

  lemma {:induction false} JoinNoNewline(parts: seq<seq<char>>)
    requires forall k | 0 <= k < |parts| :: '\n' !in parts[k]
    ensures '\n' !in Join(' ', parts)
  {
    if |parts| > 1 {
      JoinNoNewline(parts[1..]);
    }
  }

  /** Gluing two arrow-free texts with a space cannot create `-->`. */
  lemma NoArrowAcrossSpace(a: seq<char>, b: seq<char>)
    requires !HasArrow(a) && !HasArrow(b)
    ensures !HasArrow(a + [' '] + b)
  {
    var s := a + [' '] + b;
    if HasArrow(s) {
      var i: nat :| i < |s| && ArrowAt(s, i);
      if i + 3 <= |a| {
        assert ArrowAt(a, i);
      } else if i >= |a| + 1 {
        assert ArrowAt(b, i - |a| - 1);
      }
      assert false;
    }
  }

  lemma {:induction false} JoinNoArrow(parts: seq<seq<char>>)
    requires forall k | 0 <= k < |parts| :: !HasArrow(parts[k])
    ensures !HasArrow(Join(' ', parts))
  {
    if |parts| > 1 {
      JoinNoArrow(parts[1..]);
      NoArrowAcrossSpace(parts[0], Join(' ', parts[1..]));
    }
  }
}
