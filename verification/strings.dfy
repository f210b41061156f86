/**
 * Python string primitives the ingestion script relies on: the whitespace class
 * shared by `\s` and `str.strip()`, clamped slicing `s[a:b]`, `str.split('\n')`,
 * `sep.join(...)`, and the decimal rendering of an index in an f-string.
 */
module Strings {

  function Min(a: int, b: int): int { if a <= b then a else b }
  function Max(a: int, b: int): int { if a >= b then a else b }

  /** Python's `str.isspace()`: the characters matched by `\s` in a str pattern
      and removed by `str.strip()` with no argument. */
  predicate IsSpace(c: char) {
    var n := c as int;
    n == 0x20 || (0x09 <= n <= 0x0d) || (0x1c <= n <= 0x1f) || n == 0x85 || n == 0xa0
    || n == 0x1680 || (0x2000 <= n <= 0x200a) || n == 0x2028 || n == 0x2029
    || n == 0x202f || n == 0x205f || n == 0x3000
  }

  /** ASCII decimal digit (the model's reading of `\d`). */
  predicate IsDigit(c: char) { '0' <= c <= '9' }

  /** `s[a:b]` for non-negative bounds: `b` is clamped to `len(s)`, and an
      inverted or out-of-range slice is empty. */
  function Slice(s: seq<char>, a: nat, b: nat): seq<char>
  {
    if b <= a || a >= |s| then [] else s[a..Min(b, |s|)]
  }

  /** `str.lstrip()`: drops the leading whitespace run. */
  function TrimLeft(s: seq<char>): (r: seq<char>)
    ensures |r| <= |s| && r == s[|s| - |r|..]
    ensures r == [] || !IsSpace(r[0])
    ensures s != [] && IsSpace(s[0]) ==> |r| < |s|
  {
    if s != [] && IsSpace(s[0]) then TrimLeft(s[1..]) else s
  }

  /** Everything `TrimLeft` drops is whitespace. */
  lemma {:induction false} TrimLeftDropsSpaces(s: seq<char>)
    ensures forall i | 0 <= i < |s| - |TrimLeft(s)| :: IsSpace(s[i])
  {
    if s != [] && IsSpace(s[0]) {
      TrimLeftDropsSpaces(s[1..]);
      forall i | 1 <= i < |s| - |TrimLeft(s)| ensures IsSpace(s[i]) {
        assert s[i] == s[1..][i - 1];
      }
    }
  }

  /** `str.rstrip()`: drops the trailing whitespace run. */
  function TrimRight(s: seq<char>): (r: seq<char>)
    ensures |r| <= |s| && r == s[..|r|]
    ensures r == [] || !IsSpace(r[|r| - 1])
  {
    if s != [] && IsSpace(s[|s| - 1]) then TrimRight(s[..|s| - 1]) else s
  }

  /** Everything `TrimRight` drops is whitespace. */
  lemma {:induction false} TrimRightDropsSpaces(s: seq<char>)
    ensures forall i | |TrimRight(s)| <= i < |s| :: IsSpace(s[i])
  {
    if s != [] && IsSpace(s[|s| - 1]) {
      TrimRightDropsSpaces(s[..|s| - 1]);
    }
  }

  /** `str.strip()`: the result has no whitespace at either end. */
  function Strip(s: seq<char>): (r: seq<char>)
    ensures r == [] || (!IsSpace(r[0]) && !IsSpace(r[|r| - 1]))
  {
    TrimRight(TrimLeft(s))
  }

  /** `str.strip()` gives the empty string exactly when `s` is made of whitespace only. */
  lemma StripEmpty(s: seq<char>)
    ensures Strip(s) == [] <==> forall i | 0 <= i < |s| :: IsSpace(s[i])
  {
    var l := TrimLeft(s);
    TrimLeftDropsSpaces(s);
    if Strip(s) == [] {
      TrimRightDropsSpaces(l);
    } else {
      var k := StripStart(s);
      StripSlice(s);
      assert s[k] == Strip(s)[0];
    }
  }

  /** Where `Strip(s)` starts inside `s`. */
  function StripStart(s: seq<char>): nat
  {
    |s| - |TrimLeft(s)|
  }

  /** `Strip(s)` is the piece of `s` that starts at `StripStart(s)`. */
  lemma StripSlice(s: seq<char>)
    ensures StripStart(s) + |Strip(s)| <= |s|
    ensures Strip(s) == s[StripStart(s)..StripStart(s) + |Strip(s)|]
  {
    var l := TrimLeft(s);
    assert l == s[StripStart(s)..];
    assert Strip(s) == l[..|Strip(s)|];
  }

  /** `Strip(s)` is a piece of `s`, and everything `Strip` drops is whitespace. */
  lemma StripDropsSpaces(s: seq<char>)
    ensures StripStart(s) + |Strip(s)| <= |s|
    ensures Strip(s) == s[StripStart(s)..StripStart(s) + |Strip(s)|]
    ensures forall i | 0 <= i < StripStart(s) :: IsSpace(s[i])
    ensures forall i | StripStart(s) + |Strip(s)| <= i < |s| :: IsSpace(s[i])
  {
    var l := TrimLeft(s);
    var k := StripStart(s);
    var r := Strip(s);
    StripSlice(s);
    TrimLeftDropsSpaces(s);
    TrimRightDropsSpaces(l);
    assert r == TrimRight(l);
    forall i | k + |r| <= i < |s| ensures IsSpace(s[i]) {
      assert s[i] == l[i - k];
    }
  }

  /** A string that starts and ends with a visible character is left alone by `strip()`. */
  lemma StripOfVisibleEnds(u: seq<char>)
    requires u != [] && !IsSpace(u[0]) && !IsSpace(u[|u| - 1])
    ensures Strip(u) == u
  {
    assert TrimLeft(u) == u;
    assert TrimRight(u) == u;
  }

  /** The total length of `parts`. */
  function TotalLength(parts: seq<seq<char>>): nat
  {
    if parts == [] then 0 else |parts[0]| + TotalLength(parts[1..])
  }

  /** Python's `sep.join(parts)`: the parts with exactly one separator between each two. */
  function Join(sep: char, parts: seq<seq<char>>): (r: seq<char>)
    ensures parts != [] ==> |r| == TotalLength(parts) + |parts| - 1
    ensures parts != [] ==> r[..|parts[0]|] == parts[0]
  {
    if parts == [] then []
    else if |parts| == 1 then parts[0]
    else parts[0] + [sep] + Join(sep, parts[1..])
  }

  /** Joining a first part onto further parts puts one separator between them, and the
      result is at least as long as the first part. */
  lemma JoinCons(sep: char, w: seq<char>, parts: seq<seq<char>>)
    ensures parts != [] ==> Join(sep, [w] + parts) == w + [sep] + Join(sep, parts)
    ensures |Join(sep, [w] + parts)| >= |w|
  {
    assert ([w] + parts)[1..] == parts;
  }

  /** Trailing whitespace is stripped from the end only: a prefix before a part that
      keeps something after `rstrip()` is untouched. */
  lemma {:induction false} TrimRightAppend(a: seq<char>, b: seq<char>)
    requires TrimRight(b) != []
    ensures TrimRight(a + b) == a + TrimRight(b)
    decreases |b|
  {
    var ab := a + b;
    assert ab[|ab| - 1] == b[|b| - 1];
    if IsSpace(b[|b| - 1]) {
      var front := b[..|b| - 1];
      assert ab[..|ab| - 1] == a + front;
      TrimRightAppend(a, front);
    }
  }

  /** Regrouping a concatenation: if `x` is `h` before `y` and `y` is `p` before `z`,
      then `x` is `h + p` before `z`. */
  lemma Regroup(x: seq<char>, y: seq<char>, z: seq<char>, h: seq<char>, p: seq<char>, hp: seq<char>)
    requires x == h + y && y == p + z && h + p == hp
    ensures x == hp + z
  {
  }

  /** Slicing after the first element and then again is slicing the original once. */
  lemma SplitAfterHead(t: seq<char>, m: nat)
    requires 1 + m <= |t|
    ensures t[1..][m..] == t[1 + m..]
    ensures [t[0]] + t[1..][..m] == t[..1 + m]
  {
  }

  /** A piece of `str.split()`: non-empty and free of whitespace. */
  predicate IsWord(w: seq<char>) {
    w != [] && forall i | 0 <= i < |w| :: !IsSpace(w[i])
  }

  /** Length of the leading run of non-whitespace characters of `s`. */
  function WordLen(s: seq<char>): (n: nat)
    ensures n <= |s|
    ensures s != [] && !IsSpace(s[0]) ==> n >= 1
  {
    if s == [] || IsSpace(s[0]) then 0 else 1 + WordLen(s[1..])
  }

  /** A word that starts with a visible character is one longer than the word after it. */
  lemma WordLenCons(t: seq<char>)
    requires t != [] && !IsSpace(t[0])
    ensures WordLen(t) == 1 + WordLen(t[1..])
  {
  }

  /** The leading run `WordLen` measures is non-whitespace, and whitespace ends it. */
  lemma {:induction false} WordLenNoSpace(s: seq<char>)
    ensures forall i | 0 <= i < WordLen(s) :: !IsSpace(s[i])
    ensures WordLen(s) < |s| ==> IsSpace(s[WordLen(s)])
  {
    if s != [] && !IsSpace(s[0]) {
      WordLenNoSpace(s[1..]);
      assert WordLen(s) < |s| ==> s[WordLen(s)] == s[1..][WordLen(s[1..])];
      forall i | 1 <= i < WordLen(s) ensures !IsSpace(s[i]) {
        assert s[i] == s[1..][i - 1];
      }
    }
  }

  /** Python's `s.split()` with no argument: the maximal runs of non-whitespace
      characters, in order. */
  function Words(s: seq<char>): seq<seq<char>>
    decreases |s|
  {
    var t := TrimLeft(s);
    if t == [] then []
    else
      var n := WordLen(t);
      [t[..n]] + Words(t[n..])
  }

  /** Every piece of `ws` is a word. */
  predicate AllWords(ws: seq<seq<char>>) {
    forall k | 0 <= k < |ws| :: IsWord(ws[k])
  }

  /** Every piece of `str.split()` is a non-empty run without whitespace. */
  lemma {:induction false} WordsAreWords(s: seq<char>)
    ensures AllWords(Words(s))
    decreases |s|
  {
    var t := TrimLeft(s);
    if t != [] {
      var n := WordLen(t);
      var rest := t[n..];
      FirstWord(t);
      WordsAreWords(rest);
      assert Words(s) == [t[..n]] + Words(rest);
      ConsWords(t[..n], Words(rest));
    }
  }

  lemma ConsWords(w: seq<char>, ws: seq<seq<char>>)
    requires IsWord(w) && AllWords(ws)
    ensures AllWords([w] + ws)
  {
    var r := [w] + ws;
    assert forall k | 1 <= k < |r| :: r[k] == ws[k - 1];
  }

  /** The leading run of a text that starts with a non-whitespace character is a word. */
  lemma FirstWord(t: seq<char>)
    requires t != [] && !IsSpace(t[0])
    ensures IsWord(t[..WordLen(t)])
  {
    var w := t[..WordLen(t)];
    WordLenNoSpace(t);
    assert forall i | 0 <= i < |w| :: w[i] == t[i];
  }

  /** A text that starts with a visible character splits into its leading word and the
      words of what follows. */
  lemma WordsCons(t: seq<char>)
    requires t != [] && !IsSpace(t[0])
    ensures Words(t) == [t[..WordLen(t)]] + Words(t[WordLen(t)..])
  {
    assert TrimLeft(t) == t;
  }

  /** `rstrip()` leaves a word alone and removes one space after it. */
  lemma TrimRightWord(w: seq<char>)
    requires IsWord(w)
    ensures TrimRight(w) == w
    ensures TrimRight(w + [' ']) == w
  {
    var ws := w + [' '];
    assert ws[..|ws| - 1] == w;
  }

  /** Leading whitespace does not change the words. */
  lemma WordsTrimLeft(s: seq<char>)
    ensures Words(TrimLeft(s)) == Words(s)
  {
    var t := TrimLeft(s);
    assert TrimLeft(t) == t;
  }

  /** Python's `s.split('\n')`: always at least one piece, none of them holding a newline,
      and joining the pieces back with newlines gives `s` again. */
  function SplitLines(s: seq<char>): (r: seq<seq<char>>)
    ensures |r| >= 1
    ensures forall k | 0 <= k < |r| :: '\n' !in r[k]
    ensures Join('\n', r) == s
  {
    if s == [] then [[]]
    else if s[0] == '\n' then
      var rest := SplitLines(s[1..]);
      assert s == [] + ['\n'] + s[1..];
      [[]] + rest
    else
      var rest := SplitLines(s[1..]);
      var r := [[s[0]] + rest[0]] + rest[1..];
      JoinConsChar('\n', s[0], rest);
      assert s == [s[0]] + s[1..];
      r
  }

  /** Prepending a character to the first piece prepends it to the joined text. */
  lemma {:induction false} JoinConsChar(sep: char, c: char, parts: seq<seq<char>>)
    requires |parts| >= 1
    ensures Join(sep, [[c] + parts[0]] + parts[1..]) == [c] + Join(sep, parts)
  {
    var q := [[c] + parts[0]] + parts[1..];
    assert q[1..] == parts[1..];
    if |parts| > 1 {
      assert Join(sep, q) == [c] + parts[0] + [sep] + Join(sep, parts[1..]);
    }
  }

  /** The decimal digit for a value below ten. */
  function DigitChar(d: nat): (c: char)
    requires d < 10
    ensures IsDigit(c) && (c as int) - ('0' as int) == d
  {
    (('0' as int) + d) as char
  }

  /** `str(n)` / `f"{n}"` for a non-negative integer. */
  function NatToString(n: nat): (r: seq<char>)
    ensures |r| >= 1
    ensures forall i | 0 <= i < |r| :: IsDigit(r[i])
  {
    if n < 10 then [DigitChar(n)] else NatToString(n / 10) + [DigitChar(n % 10)]
  }

  /** Every character of `s` is a decimal digit. */
  predicate DecimalDigits(s: seq<char>) {
    forall i | 0 <= i < |s| :: IsDigit(s[i])
  }

  /** Reads a string of decimal digits back as a number. */
  function ParseDigits(s: seq<char>): nat
    requires DecimalDigits(s)
  {
    if s == [] then 0
    else ParseDigits(s[..|s| - 1]) * 10 + DigitValue(s[|s| - 1])
  }

  function DigitValue(c: char): nat
    requires IsDigit(c)
  {
    (c as int) - ('0' as int)
  }

  /** The decimal rendering reads back as the same number, so distinct indices give
      distinct strings. */
  lemma {:induction false} ParseNatToString(n: nat)
    ensures ParseDigits(NatToString(n)) == n
  {
    var r := NatToString(n);
    if n < 10 {
      assert r[..|r| - 1] == [];
    } else {
      ParseNatToString(n / 10);
      assert r[..|r| - 1] == NatToString(n / 10);
    }
  }

  lemma NatToStringInjective(i: nat, j: nat)
    requires NatToString(i) == NatToString(j)
    ensures i == j
  {
    ParseNatToString(i);
    ParseNatToString(j);
  }
}
