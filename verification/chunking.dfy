/**
 * `ContentProcessor._chunk_text`: cuts cleaned text into numbered, overlapping windows.
 * Each window is as wide as the size budget allows, is pulled back to the last sentence
 * end found in its final 200 characters, and the next window starts `chunkOverlap`
 * units before the previous one ended.
 *
 * With a positive `chunkOverlap`, the loop as written never stops once a window
 * reaches the end of the text in token mode (see `NextStartAsWritten`), and in character mode it goes on to further windows
 * inside the last one (`WindowsAsWritten`, `CharModeAsWritten`). `ChunkText` stops after
 * the window that reaches the end (`NextStart`).
 */
module Chunking {
  import opened Strings
  import opened Wrappers
  import opened Boundaries
  import Cleaning

  /** The settings `_chunk_text` reads; they never change after the processor is built.
      `chunkSize` is also the budget passed to `_find_token_boundary`. */
  datatype Config = Config(chunkSize: nat, chunkOverlap: int, counter: Counter)

  /** The processor's defaults: 800-unit chunks overlapping by 100 units. */
  const DefaultChunkSize: nat := 800
  const DefaultChunkOverlap: int := 100

  /** How far back from a window's nominal end the sentence search starts. */
  const SentenceLookback: nat := 200

  /** One chunk record: the stripped window text, its id, its number and the window's
      bounds in the text. */
  datatype Chunk = Chunk(text: seq<char>, chunkId: seq<char>, chunkIndex: nat,
                         startPosition: nat, endPosition: nat)

  /** A window `text[start:end]` visited by the loop. */
  datatype Window = Window(start: nat, end: nat)

  /** `f"{doc_id}_chunk_{chunk_index}"`: the document id, `_chunk_`, then decimal digits
      that read back as the index. */
  function ChunkId(docId: seq<char>, index: nat): (r: seq<char>)
    ensures |docId| + 7 < |r| && r[..|docId| + 7] == docId + "_chunk_"
    ensures DecimalDigits(r[|docId| + 7..]) && ParseDigits(r[|docId| + 7..]) == index
  {
    var digits := NatToString(index);
    ParseNatToString(index);
    assert (docId + "_chunk_" + digits)[|docId| + 7..] == digits;
    docId + "_chunk_" + digits
  }

  /** Chunk ids of one document are distinct: the index can be read back from the id. */
  lemma ChunkIdInjective(docId: seq<char>, i: nat, j: nat)
    requires ChunkId(docId, i) == ChunkId(docId, j)
    ensures i == j
  {
  }

  /** Where a window would end before sentence snapping: the token boundary in token
      mode, `start + chunkSize` in character mode. */
  function NominalEnd(cfg: Config, text: seq<char>, start: nat): nat
  {
    if cfg.counter.Tokens? then TokenBoundary(cfg.counter, text, start, cfg.chunkSize)
    else start + cfg.chunkSize
  }

  /** The end of the window that starts at `start`. A window that does not reach the end
      of the text is pulled back to the last sentence end in its final
      `SentenceLookback` characters, provided that leaves it non-empty. */
  function WindowEnd(cfg: Config, text: seq<char>, start: nat): (r: nat)
    ensures var nominal := NominalEnd(cfg, text, start);
      r == nominal || (start < r <= nominal && nominal - SentenceLookback < r && r <= |text|)
  {
    var end := NominalEnd(cfg, text, start);
    if end < |text| then
      var searchStart: nat := Max(start, end - SentenceLookback);
      var sentenceEnd := SentenceBoundary(text, searchStart, end);
      if sentenceEnd > start then sentenceEnd else end
    else end
  }

  /** The walk the loop takes over a text of length `len`: the window starting at `s`
      ends at `endOf(s)`, and the next one starts `overlap` units before that end. */
  datatype Walk = Walk(endOf: nat -> nat, overlap: int, len: nat)

  /** The walk `_chunk_text` takes over `text`. */
  function WalkOf(cfg: Config, text: seq<char>): (w: Walk)
    ensures w.overlap == cfg.chunkOverlap && w.len == |text|
  {
    Walk(s => WindowEnd(cfg, text, s), cfg.chunkOverlap, |text|)
  }

  /** The step after the window ending at `end`, as the loop is written:
      `start = end - chunk_overlap`, leaving the loop only if that is past the text. */
  function NextStartAsWritten(w: Walk, end: nat): Option<int>
  {
    var start := end - w.overlap;
    if start >= w.len then None else Some(start)
  }

  /** The step after the window ending at `end`, corrected: the window that reaches the
      end of the text is the last one. */
  function NextStart(w: Walk, end: nat): Option<int>
  {
    if end >= w.len then None else NextStartAsWritten(w, end)
  }

  /** The walk makes progress: every window that does not reach the end of the text is
      wider than the overlap, so the next window starts further on. */
  predicate Advances(w: Walk) {
    forall s: nat | s < w.len :: w.endOf(s) >= w.len || w.endOf(s) > s + w.overlap
  }

  /** `_chunk_text` walks windows only over a text whose count exceeds the budget; for
      such a text the walk must advance. A text within the budget is never walked. */
  predicate LoopAdvances(cfg: Config, text: seq<char>) {
    Count(cfg.counter, text) > cfg.chunkSize ==> Advances(WalkOf(cfg, text))
  }

  /** The windows the walk visits from `start` on. */
  function WindowsFrom(w: Walk, start: nat): (ws: seq<Window>)
    requires Advances(w)
    requires start < w.len
    ensures |ws| >= 1 && ws[0].start == start
    ensures forall k | 0 <= k < |ws| :: start <= ws[k].start < w.len
    decreases w.len - start
  {
    var end := w.endOf(start);
    match NextStart(w, end)
    case None => [Window(start, end)]
    case Some(next) => [Window(start, end)] + WindowsFrom(w, next)
  }

  /** Each window in `ws` ends where the walk says. */
  predicate EndsAsWalked(w: Walk, ws: seq<Window>) {
    forall k | 0 <= k < |ws| :: ws[k].end == w.endOf(ws[k].start)
  }

  /** Each window in `ws` but the last stops short of the end of the text, and the next
      one starts `overlap` before its end. */
  predicate Chained(w: Walk, ws: seq<Window>) {
    forall k | 0 <= k < |ws| - 1 :: ws[k].end < w.len && ws[k + 1].start == ws[k].end - w.overlap
  }

  /** The windows form a chain: each ends where `endOf` says, the next one starts
      `overlap` units before that end, and only the last one stops the loop. */
  lemma {:induction false} WindowsChain(w: Walk, start: nat)
    requires Advances(w)
    requires start < w.len
    ensures EndsAsWalked(w, WindowsFrom(w, start))
    ensures Chained(w, WindowsFrom(w, start))
    ensures NextStart(w, WindowsFrom(w, start)[|WindowsFrom(w, start)| - 1].end) == None
  {
    WindowsEnd(w, start);
    WindowsChained(w, start);
    WindowsLast(w, start);
  }

  lemma {:induction false} WindowsEnd(w: Walk, start: nat)
    requires Advances(w)
    requires start < w.len
    ensures EndsAsWalked(w, WindowsFrom(w, start))
    decreases w.len - start
  {
    var ws := WindowsFrom(w, start);
    var end := w.endOf(start);
    match NextStart(w, end)
    case None =>
    case Some(next) =>
      var rest := WindowsFrom(w, next);
      assert ws == [Window(start, end)] + rest;
      WindowsEnd(w, next);
      forall k | 1 <= k < |ws| ensures ws[k].end == w.endOf(ws[k].start) {
        assert ws[k] == rest[k - 1];
      }
  }

  lemma {:induction false} WindowsChained(w: Walk, start: nat)
    requires Advances(w)
    requires start < w.len
    ensures Chained(w, WindowsFrom(w, start))
    decreases w.len - start
  {
    var ws := WindowsFrom(w, start);
    var end := w.endOf(start);
    match NextStart(w, end)
    case None =>
    case Some(next) =>
      var rest := WindowsFrom(w, next);
      assert ws == [Window(start, end)] + rest;
      WindowsChained(w, next);
      forall k | 1 <= k < |ws| - 1
        ensures ws[k].end < w.len && ws[k + 1].start == ws[k].end - w.overlap
      {
        assert ws[k] == rest[k - 1] && ws[k + 1] == rest[k];
      }
  }

  lemma {:induction false} WindowsLast(w: Walk, start: nat)
    requires Advances(w)
    requires start < w.len
    ensures NextStart(w, WindowsFrom(w, start)[|WindowsFrom(w, start)| - 1].end) == None
    decreases w.len - start
  {
    var ws := WindowsFrom(w, start);
    var end := w.endOf(start);
    match NextStart(w, end)
    case None =>
    case Some(next) =>
      var rest := WindowsFrom(w, next);
      assert ws == [Window(start, end)] + rest;
      WindowsLast(w, next);
      assert ws[|ws| - 1] == rest[|rest| - 1];
  }

  /** The text of a window once stripped: `text[start:end].strip()`. */
  function ClipOf(text: seq<char>): Window -> seq<char>
  {
    (w: Window) => Strip(Slice(text, w.start, w.end))
  }

  /** The record emitted for window `w` as chunk number `index`, where `clip` gives a
      window's stripped text: none when that text is empty. */
  function EmitOne(clip: Window -> seq<char>, docId: seq<char>, w: Window, index: nat): seq<Chunk>
  {
    var chunkText := clip(w);
    if chunkText != [] then [Chunk(chunkText, ChunkId(docId, index), index, w.start, w.end)] else []
  }

  /** The records emitted so far, `emitted`, extended by the records for windows `ws`
      in order; each new record is numbered by how many records precede it, so a skipped
      window does not use up a number. */
  function Emit(clip: Window -> seq<char>, docId: seq<char>, emitted: seq<Chunk>, ws: seq<Window>): (r: seq<Chunk>)
    ensures |emitted| <= |r| <= |emitted| + |ws|
    ensures r[..|emitted|] == emitted
    decreases |ws|
  {
    if ws == [] then emitted
    else
      var next := emitted + EmitOne(clip, docId, ws[0], |emitted|);
      var r := Emit(clip, docId, next, ws[1..]);
      assert r[..|emitted|] == r[..|next|][..|emitted|];
      r
  }

  /** What `_chunk_text(text, doc_id)` returns. A text that fits the budget is one chunk
      holding the whole, unstripped text; otherwise the records for the windows. */
  function ChunkTextSpec(cfg: Config, text: seq<char>, docId: seq<char>): (r: seq<Chunk>)
    requires LoopAdvances(cfg, text)
    ensures Count(cfg.counter, text) <= cfg.chunkSize ==> |r| == 1 && r[0].text == text
    ensures Count(cfg.counter, text) > cfg.chunkSize && text != [] ==> |r| <= |WindowsFrom(WalkOf(cfg, text), 0)|
  {
    if Count(cfg.counter, text) <= cfg.chunkSize then
      [Chunk(text, ChunkId(docId, 0), 0, 0, |text|)]
    else if text == [] then []
    else Emit(ClipOf(text), docId, [], WindowsFrom(WalkOf(cfg, text), 0))
  }

  /** The windows after the first one continue from the next start. */
  lemma WindowsFromNext(w: Walk, start: nat)
    requires Advances(w)
    requires start < w.len
    ensures var ws := WindowsFrom(w, start);
      ws[0].end == w.endOf(start)
      && match NextStart(w, ws[0].end)
         case None => ws == [ws[0]]
         case Some(next) => 0 <= next < w.len && ws[1..] == WindowsFrom(w, next)
  {
  }

  /** The loop state before a turn: the records so far, `before`, followed by the records
      of the windows from `start` on, are `spec`. The turn appends the record of the
      window `[start, end)`, if its stripped text `chunkText` is not empty, giving `after`. */
  predicate TurnState(w: Walk, clip: Window -> seq<char>, docId: seq<char>, before: seq<Chunk>,
                      after: seq<Chunk>, start: nat, end: nat, chunkText: seq<char>, spec: seq<Chunk>)
  {
    && Advances(w)
    && start < w.len
    && Emit(clip, docId, before, WindowsFrom(w, start)) == spec
    && end == w.endOf(start)
    && chunkText == clip(Window(start, end))
    && after == if chunkText != [] then
         before + [Chunk(chunkText, ChunkId(docId, |before|), |before|, start, end)] else before
  }

  /** A turn whose window reaches the end of the text, or whose next start is past it,
      completes the records. */
  lemma LastTurn(w: Walk, clip: Window -> seq<char>, docId: seq<char>, before: seq<Chunk>,
                 after: seq<Chunk>, start: nat, end: nat, chunkText: seq<char>, spec: seq<Chunk>)
    requires TurnState(w, clip, docId, before, after, start, end, chunkText, spec)
    requires end >= w.len || end - w.overlap >= w.len
    ensures after == spec
  {
    var ws := WindowsFrom(w, start);
    WindowsFromNext(w, start);
    assert ws[0] == Window(start, end);
    assert after == before + EmitOne(clip, docId, ws[0], |before|);
    assert ws[1..] == [];
    assert spec == Emit(clip, docId, after, ws[1..]);
  }

  /** Any other turn moves forward, and the records still to come are those of the
      windows from the next start. */
  lemma NextTurn(w: Walk, clip: Window -> seq<char>, docId: seq<char>, before: seq<Chunk>,
                 after: seq<Chunk>, start: nat, end: nat, chunkText: seq<char>, next: int,
                 spec: seq<Chunk>)
    requires TurnState(w, clip, docId, before, after, start, end, chunkText, spec)
    requires next == end - w.overlap
    requires end < w.len && next < w.len
    ensures start < next
    ensures Emit(clip, docId, after, WindowsFrom(w, next)) == spec
  {
    var ws := WindowsFrom(w, start);
    WindowsFromNext(w, start);
    assert ws[0] == Window(start, end);
    assert after == before + EmitOne(clip, docId, ws[0], |before|);
    assert ws[1..] == WindowsFrom(w, next);
    assert spec == Emit(clip, docId, after, ws[1..]);
  }

  /** The end the size budget allows: `_find_token_boundary` in token mode,
      `start + chunk_size` in character mode. */
  method FindNominalEnd(cfg: Config, text: seq<char>, start: nat) returns (end: nat)
    requires Monotone(cfg.counter)
    ensures end == NominalEnd(cfg, text, start)
  {
    if cfg.counter.Tokens? {
      end := FindTokenBoundary(text, start, cfg.chunkSize, cfg.counter);
    } else {
      end := start + cfg.chunkSize;
    }
  }

  /** The first half of a turn of the window loop: the nominal end from the size
      budget, then sentence snapping. */
  method FindWindowEnd(cfg: Config, text: seq<char>, start: nat) returns (end: nat)
    requires Monotone(cfg.counter)
    ensures end == WindowEnd(cfg, text, start)
  {
    var nominal := FindNominalEnd(cfg, text, start);
    end := nominal;
    if nominal < |text| {
      var searchStart: nat := Max(start, nominal - SentenceLookback);
      var sentenceEnd := SentenceBoundary(text, searchStart, nominal);
      if sentenceEnd > start {
        end := sentenceEnd;
      }
      assert end == WindowEnd(cfg, text, start);
    } else {
      assert end == WindowEnd(cfg, text, start);
    }
  }

  /** `_chunk_text`: the window loop. */
  method ChunkText(cfg: Config, text: seq<char>, docId: seq<char>) returns (chunks: seq<Chunk>)
    requires Monotone(cfg.counter)
    requires LoopAdvances(cfg, text)
    ensures chunks == ChunkTextSpec(cfg, text, docId)
    ensures Numbered(docId, chunks)
  {
    if Count(cfg.counter, text) <= cfg.chunkSize {
      return [Chunk(text, ChunkId(docId, 0), 0, 0, |text|)];
    }
    ghost var walk := WalkOf(cfg, text);
    ghost var clip := ClipOf(text);
    ghost var spec := ChunkTextSpec(cfg, text, docId);
    chunks := [];
    var start: nat := 0;
    var chunkIndex: nat := 0;
    while start < |text|
      invariant start <= |text|
      invariant chunkIndex == |chunks|
      invariant start < |text| ==> Emit(clip, docId, chunks, WindowsFrom(walk, start)) == spec
      invariant start == |text| ==> text == [] && chunks == []
      decreases |text| - start
    {
      var end := FindWindowEnd(cfg, text, start);
      var chunkText := Strip(Slice(text, start, end));
      ghost var before := chunks;
      if chunkText != [] {
        chunks := chunks + [Chunk(chunkText, ChunkId(docId, chunkIndex), chunkIndex, start, end)];
        chunkIndex := chunkIndex + 1;
      }
      assert TurnState(walk, clip, docId, before, chunks, start, end, chunkText, spec);
      // The window that reaches the end of the text is the last one.
      if end >= |text| {
        LastTurn(walk, clip, docId, before, chunks, start, end, chunkText, spec);
        break;
      }
      var next := end - cfg.chunkOverlap;
      if next >= |text| {
        LastTurn(walk, clip, docId, before, chunks, start, end, chunkText, spec);
        break;
      }
      NextTurn(walk, clip, docId, before, chunks, start, end, chunkText, next, spec);
      start := next;
    }
    ChunkTextNumbered(cfg, text, docId);
  }

  /** Records numbered 0, 1, 2, ... with ids `docId_chunk_0`, `docId_chunk_1`, .... */
  predicate Numbered(docId: seq<char>, cs: seq<Chunk>) {
    forall k | 0 <= k < |cs| :: cs[k].chunkIndex == k && cs[k].chunkId == ChunkId(docId, k)
  }

  lemma {:induction false} EmitNumbered(clip: Window -> seq<char>, docId: seq<char>, emitted: seq<Chunk>, ws: seq<Window>)
    requires Numbered(docId, emitted)
    ensures Numbered(docId, Emit(clip, docId, emitted, ws))
    decreases |ws|
  {
    if ws != [] {
      var next := emitted + EmitOne(clip, docId, ws[0], |emitted|);
      assert Numbered(docId, next) by {
        forall k | |emitted| <= k < |next|
          ensures next[k].chunkIndex == k && next[k].chunkId == ChunkId(docId, k)
        {
        }
      }
      EmitNumbered(clip, docId, next, ws[1..]);
    }
  }

  /** Numbering: the chunks `_chunk_text` returns are numbered 0, 1, 2, ... without
      gaps, with ids `docId_chunk_i`, whatever windows were skipped. */
  lemma ChunkTextNumbered(cfg: Config, text: seq<char>, docId: seq<char>)
    requires LoopAdvances(cfg, text)
    ensures Numbered(docId, ChunkTextSpec(cfg, text, docId))
  {
    if Count(cfg.counter, text) > cfg.chunkSize && text != [] {
      EmitNumbered(ClipOf(text), docId, [], WindowsFrom(WalkOf(cfg, text), 0));
    }
  }

  /** A record that came from a window: its text is the window's clipped text, and it is
      not empty. */
  predicate FromWindow(clip: Window -> seq<char>, c: Chunk) {
    c.text != [] && c.text == clip(Window(c.startPosition, c.endPosition))
  }

  /** Emitting keeps the records already there and adds only records of windows in `ws`. */
  lemma {:induction false} EmitSound(clip: Window -> seq<char>, docId: seq<char>, emitted: seq<Chunk>, ws: seq<Window>)
    ensures var r := Emit(clip, docId, emitted, ws);
      |emitted| <= |r| && r[..|emitted|] == emitted
      && forall k | |emitted| <= k < |r| ::
           FromWindow(clip, r[k]) && Window(r[k].startPosition, r[k].endPosition) in ws
    decreases |ws|
  {
    if ws != [] {
      var one := EmitOne(clip, docId, ws[0], |emitted|);
      var next := emitted + one;
      var r := Emit(clip, docId, next, ws[1..]);
      EmitSound(clip, docId, next, ws[1..]);
      assert r[..|emitted|] == next[..|next|][..|emitted|];
      forall k | |emitted| <= k < |r|
        ensures FromWindow(clip, r[k]) && Window(r[k].startPosition, r[k].endPosition) in ws
      {
        if k < |next| {
          assert r[k] == next[k] == one[0];
        } else {
          assert Window(r[k].startPosition, r[k].endPosition) in ws[1..];
        }
      }
    }
  }

  /** Every window whose clipped text is not empty gets a record. */
  lemma {:induction false} EmitComplete(clip: Window -> seq<char>, docId: seq<char>, emitted: seq<Chunk>,
                                        ws: seq<Window>, j: nat)
    requires j < |ws|
    requires clip(ws[j]) != []
    ensures var r := Emit(clip, docId, emitted, ws);
      exists k | |emitted| <= k < |r| ::
        r[k].startPosition == ws[j].start && r[k].endPosition == ws[j].end
    decreases |ws|
  {
    var one := EmitOne(clip, docId, ws[0], |emitted|);
    var next := emitted + one;
    var r := Emit(clip, docId, next, ws[1..]);
    assert r == Emit(clip, docId, emitted, ws);
    if j == 0 {
      EmitSound(clip, docId, next, ws[1..]);
      var k := |emitted|;
      assert r[k] == r[..|next|][k] == next[k] == one[0];
      assert r[k].startPosition == ws[j].start && r[k].endPosition == ws[j].end;
    } else {
      EmitComplete(clip, docId, next, ws[1..], j - 1);
      var k :| |next| <= k < |r| &&
        r[k].startPosition == ws[1..][j - 1].start && r[k].endPosition == ws[1..][j - 1].end;
      assert r[k].startPosition == ws[j].start && r[k].endPosition == ws[j].end;
    }
  }

  /** The window starts strictly increase. */
  predicate WindowStartsIncrease(ws: seq<Window>) {
    forall k | 0 <= k < |ws| - 1 :: ws[k].start < ws[k + 1].start
  }

  /** The record start positions strictly increase. */
  predicate ChunkStartsIncrease(cs: seq<Chunk>) {
    forall k | 0 <= k < |cs| - 1 :: cs[k].startPosition < cs[k + 1].startPosition
  }

  /** Records follow the order of their windows. */
  lemma {:induction false} EmitOrdered(clip: Window -> seq<char>, docId: seq<char>, emitted: seq<Chunk>, ws: seq<Window>)
    requires WindowStartsIncrease(ws)
    requires ChunkStartsIncrease(emitted)
    requires emitted != [] && ws != [] ==> emitted[|emitted| - 1].startPosition < ws[0].start
    ensures ChunkStartsIncrease(Emit(clip, docId, emitted, ws))
    decreases |ws|
  {
    if ws != [] {
      var one := EmitOne(clip, docId, ws[0], |emitted|);
      AppendOrdered(emitted, one, ws[0].start);
      var next := emitted + one;
      if next != [] && |ws| > 1 {
        assert ws[0].start < ws[1..][0].start;
      }
      EmitOrdered(clip, docId, next, ws[1..]);
    }
  }

  /** Appending at most one record that starts after every earlier one keeps the starts
      increasing, and the last start is then at most the new record's. */
  lemma AppendOrdered(emitted: seq<Chunk>, one: seq<Chunk>, start: nat)
    requires ChunkStartsIncrease(emitted) && |one| <= 1
    requires one != [] ==> one[0].startPosition == start
    requires emitted != [] ==> emitted[|emitted| - 1].startPosition < start
    ensures ChunkStartsIncrease(emitted + one)
    ensures emitted + one != [] ==> (emitted + one)[|emitted + one| - 1].startPosition <= start
  {
    var next := emitted + one;
    if one != [] {
      forall k | 0 <= k < |next| - 1
        ensures next[k].startPosition < next[k + 1].startPosition
      {
        if k + 1 < |emitted| {
          assert next[k] == emitted[k] && next[k + 1] == emitted[k + 1];
        }
      }
    } else {
      assert next == emitted;
    }
  }

  /** Successive windows start further and further on. */
  lemma WindowsStartsIncrease(w: Walk, start: nat)
    requires Advances(w)
    requires start < w.len
    ensures WindowStartsIncrease(WindowsFrom(w, start))
  {
    var ws := WindowsFrom(w, start);
    WindowsChain(w, start);
    forall k | 0 <= k < |ws| - 1 ensures ws[k].start < ws[k + 1].start {
      var s := ws[k].start;
      assert ws[k].end == w.endOf(s) < w.len;
      assert w.endOf(s) >= w.len || w.endOf(s) > s + w.overlap;
    }
  }

  /** With a non-negative overlap the windows from `start` leave no gap: every position
      from `start` to the end of the text lies in one of them. */
  lemma {:induction false} WindowsCover(w: Walk, start: nat, i: nat)
    requires Advances(w)
    requires start <= i < w.len
    requires w.overlap >= 0
    ensures var ws := WindowsFrom(w, start);
      exists k | 0 <= k < |ws| :: ws[k].start <= i < ws[k].end
    decreases w.len - start
  {
    var ws := WindowsFrom(w, start);
    var end := w.endOf(start);
    WindowsFromNext(w, start);
    if i < end {
      assert ws[0].start <= i < ws[0].end;
    } else {
      match NextStart(w, end)
      case None =>
        assert false;
      case Some(next) =>
        assert w.endOf(start) >= w.len || w.endOf(start) > start + w.overlap;
        WindowsCover(w, next, i);
        var rest := WindowsFrom(w, next);
        assert ws == [Window(start, end)] + rest;
        var k :| 0 <= k < |rest| && rest[k].start <= i < rest[k].end;
        assert ws[k + 1] == rest[k];
    }
  }

  /** Short text: a text whose count is within the budget is returned whole, unstripped,
      as the single record `docId_chunk_0` spanning `[0, len(text))`. */
  lemma ChunkTextShortText(cfg: Config, text: seq<char>, docId: seq<char>)
    requires Count(cfg.counter, text) <= cfg.chunkSize
    ensures var r := ChunkTextSpec(cfg, text, docId);
      |r| == 1 && r[0].text == text && r[0].chunkId == docId + "_chunk_0"
      && r[0].chunkIndex == 0 && r[0].startPosition == 0 && r[0].endPosition == |text|
  {
    assert NatToString(0) == "0";
  }

  /** A longer text: every record is the stripped, non-empty text of one of the windows
      the loop visits, and the records come in strictly increasing start order. */
  lemma ChunkTextLongText(cfg: Config, text: seq<char>, docId: seq<char>)
    requires LoopAdvances(cfg, text)
    requires Count(cfg.counter, text) > cfg.chunkSize
    ensures var r := ChunkTextSpec(cfg, text, docId);
      CutFrom(text, r) && ChunkStartsIncrease(r)
  {
    if text != [] {
      WindowRecordsCut(cfg, text, docId);
      assert ChunkTextSpec(cfg, text, docId) == Emit(ClipOf(text), docId, [], WindowsFrom(WalkOf(cfg, text), 0));
    }
  }

  /** Every record holds the non-empty stripped text of a non-empty window that starts
      inside `text`. */
  predicate CutFrom(text: seq<char>, r: seq<Chunk>) {
    forall k | 0 <= k < |r| ::
      r[k].text != [] && r[k].text == Strip(Slice(text, r[k].startPosition, r[k].endPosition))
      && r[k].startPosition < r[k].endPosition && r[k].startPosition < |text|
  }

  /** The records of the walk over `text` are cut from it, in increasing start order. */
  lemma WindowRecordsCut(cfg: Config, text: seq<char>, docId: seq<char>)
    requires Advances(WalkOf(cfg, text)) && text != []
    ensures var r := Emit(ClipOf(text), docId, [], WindowsFrom(WalkOf(cfg, text), 0));
      CutFrom(text, r) && ChunkStartsIncrease(r)
  {
    var walk := WalkOf(cfg, text);
    var ws := WindowsFrom(walk, 0);
    var r := Emit(ClipOf(text), docId, [], ws);
    EmitSound(ClipOf(text), docId, [], ws);
    WindowsStartsIncrease(walk, 0);
    EmitOrdered(ClipOf(text), docId, [], ws);
    ChunksFromText(text, r);
  }

  /** Records each cut from a window of `text` hold its non-empty stripped text. */
  lemma ChunksFromText(text: seq<char>, r: seq<Chunk>)
    requires forall k | 0 <= k < |r| :: FromWindow(ClipOf(text), r[k])
    ensures CutFrom(text, r)
  {
    forall k | 0 <= k < |r|
      ensures r[k].text != [] && r[k].text == Strip(Slice(text, r[k].startPosition, r[k].endPosition))
      ensures r[k].startPosition < r[k].endPosition && r[k].startPosition < |text|
    {
      ChunkFromWindow(text, r[k]);
    }
  }

  /** A record cut from `text`: a non-empty stripped window text comes from a non-empty
      window that starts inside the text. */
  lemma ChunkFromWindow(text: seq<char>, c: Chunk)
    requires FromWindow(ClipOf(text), c)
    ensures c.text != [] && c.text == Strip(Slice(text, c.startPosition, c.endPosition))
    ensures c.startPosition < c.endPosition && c.startPosition < |text|
  {
    var piece := Slice(text, c.startPosition, c.endPosition);
    assert c.text == Strip(piece);
  }

  /** A window holding a non-whitespace character has a non-empty clipped text. */
  lemma WindowClipNotEmpty(text: seq<char>, w: Window, i: nat)
    requires w.start <= i < w.end && i < |text| && !IsSpace(text[i])
    ensures ClipOf(text)(w) != []
  {
    var piece := Slice(text, w.start, w.end);
    assert piece[i - w.start] == text[i];
    StripEmpty(piece);
  }

  /** Coverage: with a non-negative overlap, every non-whitespace character of the text
      lies inside the span `[startPosition, endPosition)` of some record. */
  lemma ChunkTextCovers(cfg: Config, text: seq<char>, docId: seq<char>, i: nat)
    requires LoopAdvances(cfg, text)
    requires cfg.chunkOverlap >= 0
    requires i < |text| && !IsSpace(text[i])
    ensures var r := ChunkTextSpec(cfg, text, docId);
      exists k | 0 <= k < |r| :: r[k].startPosition <= i < r[k].endPosition
  {
    var r := ChunkTextSpec(cfg, text, docId);
    if Count(cfg.counter, text) <= cfg.chunkSize {
      assert r[0].startPosition <= i < r[0].endPosition;
    } else {
      WindowRecordsCover(cfg, text, docId, i);
      assert r == Emit(ClipOf(text), docId, [], WindowsFrom(WalkOf(cfg, text), 0));
    }
  }

  /** Over budget, the window that holds a visible character `text[i]` gets a record. */
  lemma WindowRecordsCover(cfg: Config, text: seq<char>, docId: seq<char>, i: nat)
    requires Advances(WalkOf(cfg, text))
    requires cfg.chunkOverlap >= 0
    requires i < |text| && !IsSpace(text[i])
    ensures var r := Emit(ClipOf(text), docId, [], WindowsFrom(WalkOf(cfg, text), 0));
      exists k | 0 <= k < |r| :: r[k].startPosition <= i < r[k].endPosition
  {
    var walk := WalkOf(cfg, text);
    var ws := WindowsFrom(walk, 0);
    WindowsCover(walk, 0, i);
    var j :| 0 <= j < |ws| && ws[j].start <= i < ws[j].end;
    WindowClipNotEmpty(text, ws[j], i);
    EmitComplete(ClipOf(text), docId, [], ws, j);
  }

  /** In character mode a window is at most `chunkSize` wide, and snapping pulls its end
      back by at most 199 characters, so it is at least `max(1, chunkSize - 199)` wide. */
  lemma CharModeWindowWidth(cfg: Config, text: seq<char>, start: nat)
    requires cfg.counter.Chars? && cfg.chunkSize >= 1
    ensures start + Max(1, cfg.chunkSize - 199) <= WindowEnd(cfg, text, start) <= start + cfg.chunkSize
  {
    var nominal := NominalEnd(cfg, text, start);
    assert nominal == start + cfg.chunkSize;
  }

  /** Termination in character mode: an overlap below the narrowest possible window
      makes every window advance the loop. */
  lemma CharModeAdvances(cfg: Config, text: seq<char>)
    requires cfg.counter.Chars? && cfg.chunkSize >= 1
    requires cfg.chunkOverlap < Max(1, cfg.chunkSize - 199)
    ensures Advances(WalkOf(cfg, text))
  {
    var w := WalkOf(cfg, text);
    forall s: nat | s < w.len
      ensures w.endOf(s) >= w.len || w.endOf(s) > s + w.overlap
    {
      CharModeWindowWidth(cfg, text, s);
      assert w.endOf(s) == WindowEnd(cfg, text, s);
    }
  }

  /** The processor's default settings (800 characters, overlap 100) chunk every text. */
  lemma DefaultConfigAdvances(text: seq<char>)
    ensures Advances(WalkOf(Config(DefaultChunkSize, DefaultChunkOverlap, Chars), text))
  {
    CharModeAdvances(Config(DefaultChunkSize, DefaultChunkOverlap, Chars), text);
  }

  /** A chunk size of 0 in character mode makes every window empty: the loop never
      advances on a non-empty text with a non-negative overlap. */
  lemma ZeroChunkSizeStalls(cfg: Config, text: seq<char>, start: nat)
    requires cfg.counter.Chars? && cfg.chunkSize == 0 && cfg.chunkOverlap >= 0
    requires start < |text|
    ensures WindowEnd(cfg, text, start) == start
    ensures !Advances(WalkOf(cfg, text))
  {
    var w := WalkOf(cfg, text);
    assert w.endOf(start) == WindowEnd(cfg, text, start);
  }

  /** As written, token mode never stops once the tail `text[len - overlap:]` fits the
      budget: the window from `len - overlap` is clamped to the end of the text, and
      stepping back by the overlap returns to the same start. The corrected step stops. */
  lemma TokenModeRepeatsAsWritten(cfg: Config, text: seq<char>, s: nat)
    requires cfg.counter.Tokens?
    requires cfg.chunkOverlap > 0 && s + cfg.chunkOverlap == |text|
    requires Fits(cfg.counter, text, s, |text|, cfg.chunkSize)
    ensures WindowEnd(cfg, text, s) == |text|
    ensures NextStartAsWritten(WalkOf(cfg, text), |text|) == Some(s)
    ensures NextStart(WalkOf(cfg, text), |text|) == None
  {
    assert LastFit(cfg.counter, text, s, |text|, cfg.chunkSize) == Some(|text|);
  }

  /** The smallest case: counting one token per character with a budget of 2 and an
      overlap of 1, the loop over `"abc"` visits the starts 0, 1, 2, 2, 2, ... */
  lemma TokenModeLoopExample()
    ensures var cfg := Config(2, 1, Tokens((t: seq<char>) => |t|));
      var walk := WalkOf(cfg, "abc");
      && WindowEnd(cfg, "abc", 0) == 2 && NextStartAsWritten(walk, 2) == Some(1)
      && WindowEnd(cfg, "abc", 1) == 3 && NextStartAsWritten(walk, 3) == Some(2)
      && WindowEnd(cfg, "abc", 2) == 3
  {
    var cfg := Config(2, 1, Tokens((t: seq<char>) => |t|));
    var text := "abc";
    assert !Fits(cfg.counter, text, 0, 3, 2) && Fits(cfg.counter, text, 0, 2, 2);
    assert LastFit(cfg.counter, text, 0, 3, 2) == Some(2);
    assert NominalEnd(cfg, text, 0) == 2;
    NoSentenceEnd(text, 0, 2);
    assert Fits(cfg.counter, text, 1, 3, 2);
    TokenModeRepeatsAsWritten(cfg, text, 2);
    assert LastFit(cfg.counter, text, 1, 3, 2) == Some(3);
  }

  /** The as-written step moves forward: every `start = end - overlap` that stays inside
      the text lies past the start of the window it came from. */
  predicate AdvancesAsWritten(w: Walk) {
    forall s: nat | s < w.len :: w.endOf(s) - w.overlap >= w.len || w.endOf(s) - w.overlap > s
  }

  /** The windows the loop visits from `start` on, as written: it stops only once
      `end - overlap` is past the text, even after a window has reached the end. */
  function WindowsAsWritten(w: Walk, start: nat): (ws: seq<Window>)
    requires AdvancesAsWritten(w)
    requires start < w.len
    ensures |ws| >= 1 && ws[0].start == start
    decreases w.len - start
  {
    var end := w.endOf(start);
    match NextStartAsWritten(w, end)
    case None => [Window(start, end)]
    case Some(next) => [Window(start, end)] + WindowsAsWritten(w, next)
  }

  /** Each window in `ws` but the last has `end - overlap` inside the text, and the next
      one starts there. */
  predicate ChainedAsWritten(w: Walk, ws: seq<Window>) {
    forall k | 0 <= k < |ws| - 1 ::
      ws[k].end - w.overlap < w.len && ws[k + 1].start == ws[k].end - w.overlap
  }

  /** As written, the windows form a chain: each ends where `endOf` says, the next one
      starts `overlap` units before that end, and the loop stops only after a window
      whose `end - overlap` is past the text. */
  lemma {:induction false} AsWrittenChain(w: Walk, start: nat)
    requires AdvancesAsWritten(w)
    requires start < w.len
    ensures var ws := WindowsAsWritten(w, start);
      EndsAsWalked(w, ws) && ChainedAsWritten(w, ws)
      && NextStartAsWritten(w, ws[|ws| - 1].end) == None
    decreases w.len - start
  {
    var ws := WindowsAsWritten(w, start);
    var end := w.endOf(start);
    match NextStartAsWritten(w, end)
    case None =>
      assert ws == [Window(start, end)];
    case Some(next) =>
      var rest := WindowsAsWritten(w, next);
      AsWrittenChain(w, next);
      assert ws == [Window(start, end)] + rest;
      assert forall k | 1 <= k < |ws| :: ws[k] == rest[k - 1];
      assert ws[|ws| - 1] == rest[|rest| - 1];
  }

  /** The windows the as-written loop visits after the window starting at `s`. */
  function TailFrom(w: Walk, s: nat): (ws: seq<Window>)
    requires AdvancesAsWritten(w)
    requires s < w.len
    ensures ws != [] ==> w.endOf(s) - w.overlap < w.len && ws[0].start == w.endOf(s) - w.overlap > s
  {
    match NextStartAsWritten(w, w.endOf(s))
    case None => []
    case Some(next) => WindowsAsWritten(w, next)
  }

  /** The last window of the corrected walk from `start`. */
  function LastWindow(w: Walk, start: nat): (last: Window)
    requires Advances(w)
    requires start < w.len
    ensures last in WindowsFrom(w, start)
  {
    var ws := WindowsFrom(w, start);
    ws[|ws| - 1]
  }

  /** As written, the loop visits the corrected windows and then the tail that follows the
      last of them. */
  lemma {:induction false} AsWrittenExtends(w: Walk, start: nat)
    requires Advances(w) && AdvancesAsWritten(w)
    requires start < w.len
    ensures LastWindow(w, start).start < w.len
    ensures WindowsAsWritten(w, start) == WindowsFrom(w, start) + TailFrom(w, LastWindow(w, start).start)
    decreases w.len - start
  {
    var end := w.endOf(start);
    var ws := WindowsFrom(w, start);
    var tail := TailFrom(w, LastWindow(w, start).start);
    if end >= w.len {
      assert ws == [Window(start, end)];
      assert WindowsAsWritten(w, start) == [Window(start, end)] + tail;
    } else {
      match NextStart(w, end)
      case None =>
        assert ws == [Window(start, end)];
        assert tail == [];
        assert WindowsAsWritten(w, start) == [Window(start, end)] + [];
      case Some(next) =>
        var rest := WindowsFrom(w, next);
        assert ws == [Window(start, end)] + rest;
        assert LastWindow(w, start) == LastWindow(w, next);
        AsWrittenExtends(w, next);
        assert WindowsAsWritten(w, start) == [Window(start, end)] + (rest + tail);
    }
  }

  /** Every window starting at or after `from` reaches the end of the text. */
  predicate ReachesEndFrom(w: Walk, from: nat) {
    forall s: nat | from <= s < w.len :: w.endOf(s) >= w.len
  }

  /** Windows that all run to the end of the text and start strictly increasingly, each
      after `after` and inside the text. */
  predicate TailShape(w: Walk, after: nat, ws: seq<Window>) {
    && (forall k | 0 <= k < |ws| :: after < ws[k].start < w.len <= ws[k].end)
    && WindowStartsIncrease(ws)
  }

  /** Once windows reach the end, the as-written walk only visits windows that reach the
      end too, each starting further on. */
  lemma {:induction false} AsWrittenTailShape(w: Walk, after: nat, start: nat)
    requires AdvancesAsWritten(w)
    requires after < start < w.len
    requires ReachesEndFrom(w, start)
    ensures TailShape(w, after, WindowsAsWritten(w, start))
    decreases w.len - start
  {
    var ws := WindowsAsWritten(w, start);
    var end := w.endOf(start);
    match NextStartAsWritten(w, end)
    case None =>
      assert ws == [Window(start, end)];
    case Some(next) =>
      var rest := WindowsAsWritten(w, next);
      assert ws == [Window(start, end)] + rest;
      assert start < next;
      AsWrittenTailShape(w, start, next);
      forall k | 1 <= k < |ws| ensures after < ws[k].start < w.len <= ws[k].end {
        assert ws[k] == rest[k - 1];
      }
      forall k | 0 <= k < |ws| - 1 ensures ws[k].start < ws[k + 1].start {
        assert ws[k + 1] == rest[k];
        if k > 0 {
          assert ws[k] == rest[k - 1];
        }
      }
  }

  /** The tail after a window that reaches the end of the text: each extra window starts
      inside that window, after its start, and runs to the end of the text. */
  lemma TailInsideLast(w: Walk, s: nat)
    requires AdvancesAsWritten(w)
    requires s < w.len
    requires ReachesEndFrom(w, s)
    ensures w.endOf(s) >= w.len
    ensures TailShape(w, s, TailFrom(w, s))
  {
    match NextStartAsWritten(w, w.endOf(s))
    case None =>
    case Some(next) =>
      AsWrittenTailShape(w, s, next);
  }

  /** In character mode a window that reaches the end of the text is unsnapped and
      `chunkSize` wide, so every window starting at or after it reaches the end too. */
  lemma CharModeReachesEnd(cfg: Config, text: seq<char>, s: nat)
    requires cfg.counter.Chars?
    requires WindowEnd(cfg, text, s) >= |text|
    ensures ReachesEndFrom(WalkOf(cfg, text), s)
  {
    var w := WalkOf(cfg, text);
    assert WindowEnd(cfg, text, s) == s + cfg.chunkSize;
    forall t: nat | s <= t < w.len ensures w.endOf(t) >= w.len {
      assert w.endOf(t) == WindowEnd(cfg, text, t);
      assert NominalEnd(cfg, text, t) == t + cfg.chunkSize;
    }
  }

  /** In character mode an overlap below the chunk size makes the as-written step move
      forward too, once the corrected walk advances. */
  lemma CharModeAdvancesAsWritten(cfg: Config, text: seq<char>)
    requires cfg.counter.Chars? && cfg.chunkOverlap < cfg.chunkSize
    requires Advances(WalkOf(cfg, text))
    ensures AdvancesAsWritten(WalkOf(cfg, text))
  {
    var w := WalkOf(cfg, text);
    forall s: nat | s < w.len
      ensures w.endOf(s) - w.overlap >= w.len || w.endOf(s) - w.overlap > s
    {
      assert w.endOf(s) == WindowEnd(cfg, text, s);
      assert NominalEnd(cfg, text, s) == s + cfg.chunkSize;
    }
  }

  /** What `_chunk_text` returns as written: as `ChunkTextSpec`, but over the windows the
      as-written loop visits. */
  function ChunkTextAsWritten(cfg: Config, text: seq<char>, docId: seq<char>): (r: seq<Chunk>)
    requires Count(cfg.counter, text) > cfg.chunkSize ==> AdvancesAsWritten(WalkOf(cfg, text))
    ensures Count(cfg.counter, text) <= cfg.chunkSize ==> |r| == 1 && r[0].text == text
    ensures Count(cfg.counter, text) > cfg.chunkSize && text != [] ==> |r| <= |WindowsAsWritten(WalkOf(cfg, text), 0)|
  {
    if Count(cfg.counter, text) <= cfg.chunkSize then
      [Chunk(text, ChunkId(docId, 0), 0, 0, |text|)]
    else if text == [] then []
    else Emit(ClipOf(text), docId, [], WindowsAsWritten(WalkOf(cfg, text), 0))
  }

  /** Emitting over two runs of windows emits over the first, then over the second. */
  lemma {:induction false} EmitAppend(clip: Window -> seq<char>, docId: seq<char>, emitted: seq<Chunk>,
                                      ws1: seq<Window>, ws2: seq<Window>)
    ensures Emit(clip, docId, emitted, ws1 + ws2) == Emit(clip, docId, Emit(clip, docId, emitted, ws1), ws2)
    decreases |ws1|
  {
    if ws1 != [] {
      assert (ws1 + ws2)[0] == ws1[0];
      assert (ws1 + ws2)[1..] == ws1[1..] + ws2;
      EmitAppend(clip, docId, emitted + EmitOne(clip, docId, ws1[0], |emitted|), ws1[1..], ws2);
    } else {
      assert ws1 + ws2 == ws2;
    }
  }

  /** As written, `_chunk_text` returns the corrected records followed by the records of
      the tail windows: the corrected list is a prefix, and every extra record is the
      stripped text of a window after the last corrected one. */
  lemma ChunkTextAsWrittenExtends(cfg: Config, text: seq<char>, docId: seq<char>)
    requires Count(cfg.counter, text) > cfg.chunkSize && text != []
    requires Advances(WalkOf(cfg, text)) && AdvancesAsWritten(WalkOf(cfg, text))
    ensures var walk := WalkOf(cfg, text);
      var spec := ChunkTextSpec(cfg, text, docId);
      var tail := TailFrom(walk, LastWindow(walk, 0).start);
      ChunkTextAsWritten(cfg, text, docId) == Emit(ClipOf(text), docId, spec, tail)
  {
    var walk := WalkOf(cfg, text);
    AsWrittenExtends(walk, 0);
    EmitAppend(ClipOf(text), docId, [], WindowsFrom(walk, 0), TailFrom(walk, LastWindow(walk, 0).start));
  }

  /** `r` is `spec` followed by records, each the non-empty clipped text of a window that
      starts after `after`, inside a text of length `len`, and runs to its end. */
  predicate TailRecords(clip: Window -> seq<char>, spec: seq<Chunk>, r: seq<Chunk>, after: nat, len: nat) {
    && |spec| <= |r| && r[..|spec|] == spec
    && forall k | |spec| <= k < |r| ::
         FromWindow(clip, r[k]) && after < r[k].startPosition < len <= r[k].endPosition
  }

  /** Emitting the records of tail windows after `spec` keeps `spec` and adds records of
      those windows only. */
  lemma EmitTail(w: Walk, clip: Window -> seq<char>, docId: seq<char>, spec: seq<Chunk>,
                 tail: seq<Window>, after: nat)
    requires TailShape(w, after, tail)
    ensures TailRecords(clip, spec, Emit(clip, docId, spec, tail), after, w.len)
  {
    var r := Emit(clip, docId, spec, tail);
    EmitSound(clip, docId, spec, tail);
    forall k | |spec| <= k < |r|
      ensures after < r[k].startPosition < w.len <= r[k].endPosition
    {
      var j :| 0 <= j < |tail| && tail[j] == Window(r[k].startPosition, r[k].endPosition);
    }
  }

  /** In character mode with an overlap below the chunk size, the as-written records extend
      the corrected ones, and every extra record comes from a window that starts inside the
      last corrected window, after its start, and runs to the end of the text. */
  lemma CharModeAsWritten(cfg: Config, text: seq<char>, docId: seq<char>)
    requires cfg.counter.Chars? && cfg.chunkOverlap < cfg.chunkSize
    requires Count(cfg.counter, text) > cfg.chunkSize && text != []
    requires Advances(WalkOf(cfg, text))
    ensures AdvancesAsWritten(WalkOf(cfg, text))
    ensures TailRecords(ClipOf(text), ChunkTextSpec(cfg, text, docId), ChunkTextAsWritten(cfg, text, docId),
                        LastWindow(WalkOf(cfg, text), 0).start, |text|)
  {
    var walk := WalkOf(cfg, text);
    CharModeAdvancesAsWritten(cfg, text);
    ChunkTextAsWrittenExtends(cfg, text, docId);
    var last := LastWindow(walk, 0);
    var tail := TailFrom(walk, last.start);
    if tail != [] {
      LastReachesEnd(cfg, text);
      CharModeReachesEnd(cfg, text, last.start);
      TailInsideLast(walk, last.start);
    }
    EmitTail(walk, ClipOf(text), docId, ChunkTextSpec(cfg, text, docId), tail, last.start);
  }

  /** A corrected walk over a non-empty text with a tail ends on a window that reaches the
      end of the text. */
  lemma LastReachesEnd(cfg: Config, text: seq<char>)
    requires text != [] && Advances(WalkOf(cfg, text)) && AdvancesAsWritten(WalkOf(cfg, text))
    requires TailFrom(WalkOf(cfg, text), LastWindow(WalkOf(cfg, text), 0).start) != []
    ensures WindowEnd(cfg, text, LastWindow(WalkOf(cfg, text), 0).start) >= |text|
  {
    var walk := WalkOf(cfg, text);
    var last := LastWindow(walk, 0);
    WindowsChain(walk, 0);
    assert last.end == walk.endOf(last.start);
    assert NextStart(walk, last.end) == None;
  }

  /** The smallest case: 4-character windows overlapping by 2 over `"abcde"`. The
      corrected loop visits the windows `[0, 4)` and `[2, 6)`; as written it also visits
      `[4, 8)`, whose text `"e"` the window from 2 already holds, and returns three records
      where two suffice. */
  lemma CharModeTailExample()
    ensures var cfg := Config(4, 2, Chars);
      var walk := WalkOf(cfg, "abcde");
      && Advances(walk) && AdvancesAsWritten(walk)
      && WindowsFrom(walk, 0) == [Window(0, 4), Window(2, 6)]
      && WindowsAsWritten(walk, 0) == [Window(0, 4), Window(2, 6), Window(4, 8)]
      && |ChunkTextSpec(cfg, "abcde", "d")| == 2
      && |ChunkTextAsWritten(cfg, "abcde", "d")| == 3
  {
    var cfg := Config(4, 2, Chars);
    var text := "abcde";
    ExampleWalk(cfg, text);
    var clip := ClipOf(text);
    ExampleClips(text);
    ExampleEmitCounts(clip, "d", Window(0, 4), Window(2, 6), Window(4, 8));
    assert Count(cfg.counter, text) == 5;
  }

  /** The windows of the `"abcde"` example, corrected and as written. */
  lemma ExampleWalk(cfg: Config, text: seq<char>)
    requires cfg == Config(4, 2, Chars) && text == "abcde"
    ensures Advances(WalkOf(cfg, text)) && AdvancesAsWritten(WalkOf(cfg, text))
    ensures WindowsFrom(WalkOf(cfg, text), 0) == [Window(0, 4), Window(2, 6)]
    ensures WindowsAsWritten(WalkOf(cfg, text), 0) == [Window(0, 4), Window(2, 6), Window(4, 8)]
  {
    var walk := WalkOf(cfg, text);
    NoSentenceEnd(text, 0, 4);
    assert WindowEnd(cfg, text, 0) == 4;
    ExampleAdvances(cfg, text);
    CharModeAdvancesAsWritten(cfg, text);
    assert walk.endOf(0) == 4;
    assert walk.endOf(2) == 6 && walk.endOf(4) == 8;
    assert NextStart(walk, 4) == Some(2) && NextStart(walk, 6) == None;
    assert WindowsFrom(walk, 2) == [Window(2, 6)];
    assert NextStartAsWritten(walk, 6) == Some(4) && NextStartAsWritten(walk, 8) == None;
    assert WindowsAsWritten(walk, 4) == [Window(4, 8)];
    assert WindowsAsWritten(walk, 2) == [Window(2, 6)] + [Window(4, 8)];
  }

  /** The stripped texts of the three windows of the `"abcde"` example. */
  lemma ExampleClips(text: seq<char>)
    requires text == "abcde"
    ensures ClipOf(text)(Window(0, 4)) == "abcd"
    ensures ClipOf(text)(Window(2, 6)) == "cde"
    ensures ClipOf(text)(Window(4, 8)) == "e"
  {
    var p, q, r := Slice(text, 0, 4), Slice(text, 2, 6), Slice(text, 4, 8);
    assert p == "abcd" && q == "cde" && r == "e";
    assert !IsSpace('a') && !IsSpace('c') && !IsSpace('d') && !IsSpace('e');
    StripOfVisibleEnds(p);
    StripOfVisibleEnds(q);
    StripOfVisibleEnds(r);
  }

  /** With overlap 3 instead the corrected loop visits `[0, 4)` and `[1, 5)`, while as
      written it goes on from 2, 3 and 4 as well: five records where two suffice. */
  lemma CharModeLongTailExample()
    ensures var cfg := Config(4, 3, Chars);
      var walk := WalkOf(cfg, "abcde");
      && Advances(walk) && AdvancesAsWritten(walk)
      && WindowsFrom(walk, 0) == [Window(0, 4), Window(1, 5)]
      && WindowsAsWritten(walk, 0)
         == [Window(0, 4), Window(1, 5), Window(2, 6), Window(3, 7), Window(4, 8)]
      && |ChunkTextSpec(cfg, "abcde", "d")| == 2
      && |ChunkTextAsWritten(cfg, "abcde", "d")| == 5
  {
    var cfg := Config(4, 3, Chars);
    var text := "abcde";
    LongTailWalk(cfg, text);
    LongTailCounts(cfg, text, "d");
  }

  /** The record counts of the overlap-3 example. */
  lemma LongTailCounts(cfg: Config, text: seq<char>, docId: seq<char>)
    requires cfg == Config(4, 3, Chars) && text == "abcde"
    ensures Advances(WalkOf(cfg, text)) && AdvancesAsWritten(WalkOf(cfg, text))
    ensures |ChunkTextSpec(cfg, text, docId)| == 2
    ensures |ChunkTextAsWritten(cfg, text, docId)| == 5
  {
    LongTailWalk(cfg, text);
    var ws := WindowsAsWritten(WalkOf(cfg, text), 0);
    LongTailClips(text, ws);
    EmitKeptCounts(ClipOf(text), docId, ws);
    assert Count(cfg.counter, text) == 5;
    CountsFromWindows(cfg, text, docId, ws);
  }

  /** Record counts read off the windows: the as-written list has a record per window
      when every window keeps one, and the corrected list as many as its first two. */
  lemma CountsFromWindows(cfg: Config, text: seq<char>, docId: seq<char>, ws: seq<Window>)
    requires Count(cfg.counter, text) > cfg.chunkSize && text != []
    requires Advances(WalkOf(cfg, text)) && AdvancesAsWritten(WalkOf(cfg, text))
    requires ws == WindowsAsWritten(WalkOf(cfg, text), 0)
    requires |ws| >= 2 && ws[..2] == WindowsFrom(WalkOf(cfg, text), 0)
    requires |Emit(ClipOf(text), docId, [], ws)| == |ws|
    requires |Emit(ClipOf(text), docId, [], ws[..2])| == 2
    ensures |ChunkTextSpec(cfg, text, docId)| == 2
    ensures |ChunkTextAsWritten(cfg, text, docId)| == |ws|
  {
    SpecIsEmit(cfg, text, docId);
    AsWrittenIsEmit(cfg, text, docId);
  }

  /** Over a text past the budget, `ChunkTextSpec` is the records of the corrected walk. */
  lemma SpecIsEmit(cfg: Config, text: seq<char>, docId: seq<char>)
    requires Count(cfg.counter, text) > cfg.chunkSize && text != []
    requires Advances(WalkOf(cfg, text))
    ensures ChunkTextSpec(cfg, text, docId) == Emit(ClipOf(text), docId, [], WindowsFrom(WalkOf(cfg, text), 0))
  {
  }

  /** Over a text past the budget, `ChunkTextAsWritten` is the records of the as-written
      walk. */
  lemma AsWrittenIsEmit(cfg: Config, text: seq<char>, docId: seq<char>)
    requires Count(cfg.counter, text) > cfg.chunkSize && text != []
    requires AdvancesAsWritten(WalkOf(cfg, text))
    ensures ChunkTextAsWritten(cfg, text, docId)
      == Emit(ClipOf(text), docId, [], WindowsAsWritten(WalkOf(cfg, text), 0))
  {
  }

  /** The windows of the overlap-3 example, corrected and as written. */
  lemma LongTailWalk(cfg: Config, text: seq<char>)
    requires cfg == Config(4, 3, Chars) && text == "abcde"
    ensures Advances(WalkOf(cfg, text)) && AdvancesAsWritten(WalkOf(cfg, text))
    ensures WindowsFrom(WalkOf(cfg, text), 0) == [Window(0, 4), Window(1, 5)]
    ensures WindowsAsWritten(WalkOf(cfg, text), 0)
      == [Window(0, 4), Window(1, 5), Window(2, 6), Window(3, 7), Window(4, 8)]
    ensures WindowsAsWritten(WalkOf(cfg, text), 0)[..2] == WindowsFrom(WalkOf(cfg, text), 0)
  {
    var walk := WalkOf(cfg, text);
    NoSentenceEnd(text, 0, 4);
    assert WindowEnd(cfg, text, 0) == 4;
    ExampleAdvances(cfg, text);
    CharModeAdvancesAsWritten(cfg, text);
    assert walk.endOf(0) == 4 && walk.endOf(1) == 5 && walk.endOf(2) == 6;
    assert walk.endOf(3) == 7 && walk.endOf(4) == 8;
    assert WindowsFrom(walk, 1) == [Window(1, 5)];
    assert WindowsAsWritten(walk, 4) == [Window(4, 8)];
    assert WindowsAsWritten(walk, 3) == [Window(3, 7)] + [Window(4, 8)];
    assert WindowsAsWritten(walk, 2) == [Window(2, 6)] + [Window(3, 7), Window(4, 8)];
    assert WindowsAsWritten(walk, 1) == [Window(1, 5)] + [Window(2, 6), Window(3, 7), Window(4, 8)];
  }

  /** Every window of the overlap-3 example holds a visible character. */
  lemma LongTailClips(text: seq<char>, ws: seq<Window>)
    requires text == "abcde"
    requires ws == [Window(0, 4), Window(1, 5), Window(2, 6), Window(3, 7), Window(4, 8)]
    ensures forall k | 0 <= k < |ws| :: ClipOf(text)(ws[k]) != []
  {
    forall k | 0 <= k < |ws| ensures ClipOf(text)(ws[k]) != [] {
      assert ws[k].start == k && ws[k].start < |text| && !IsSpace(text[k]);
      WindowClipNotEmpty(text, ws[k], k);
    }
  }

  /** Windows whose clipped texts are all non-empty give one record each, and so do the
      first two of them. */
  lemma EmitKeptCounts(clip: Window -> seq<char>, docId: seq<char>, ws: seq<Window>)
    requires |ws| >= 2
    requires forall k | 0 <= k < |ws| :: clip(ws[k]) != []
    ensures |Emit(clip, docId, [], ws)| == |ws|
    ensures |Emit(clip, docId, [], ws[..2])| == 2
  {
    EmitAllKept(clip, docId, [], ws);
    EmitAllKept(clip, docId, [], ws[..2]);
  }

  /** The walks of the `"abcde"` examples advance. */
  lemma ExampleAdvances(cfg: Config, text: seq<char>)
    requires cfg.counter.Chars? && cfg.chunkSize == 4 && cfg.chunkOverlap <= 3 && text == "abcde"
    requires WindowEnd(cfg, text, 0) == 4
    ensures Advances(WalkOf(cfg, text))
  {
    var w := WalkOf(cfg, text);
    forall s: nat | s < w.len ensures w.endOf(s) >= w.len || w.endOf(s) > s + w.overlap {
      assert w.endOf(s) == WindowEnd(cfg, text, s);
      if s > 0 {
        assert NominalEnd(cfg, text, s) == s + 4;
      }
    }
  }

  /** Three windows whose clipped texts are non-empty give three records, the first two
      of them two. */
  lemma ExampleEmitCounts(clip: Window -> seq<char>, docId: seq<char>, a: Window, b: Window, c: Window)
    requires clip(a) != [] && clip(b) != [] && clip(c) != []
    ensures |Emit(clip, docId, [], [a, b])| == 2
    ensures |Emit(clip, docId, [], [a, b, c])| == 3
  {
    var ws := [a, b, c];
    assert forall k | 0 <= k < |ws| :: clip(ws[k]) != [] by {
      assert ws[0] == a && ws[1] == b && ws[2] == c;
    }
    EmitAllKept(clip, docId, [], ws);
    var ab := [a, b];
    assert forall k | 0 <= k < |ab| :: clip(ab[k]) != [] by {
      assert ab[0] == a && ab[1] == b;
    }
    EmitAllKept(clip, docId, [], ab);
  }

  /** Every window with a non-empty clipped text adds exactly one record. */
  lemma {:induction false} EmitAllKept(clip: Window -> seq<char>, docId: seq<char>, emitted: seq<Chunk>, ws: seq<Window>)
    requires forall k | 0 <= k < |ws| :: clip(ws[k]) != []
    ensures |Emit(clip, docId, emitted, ws)| == |emitted| + |ws|
    decreases |ws|
  {
    if ws != [] {
      EmitAllKept(clip, docId, emitted + EmitOne(clip, docId, ws[0], |emitted|), ws[1..]);
    }
  }

  /** Cleaned text holds no newline, so the blank-line pattern of the sentence search
      never matches in any slice of it. */
  lemma CleanedTextHasNoBlankLine(raw: seq<char>, a: nat, b: nat)
    ensures Matches(BlankLine, Slice(Cleaning.CleanText(raw), a, b), 0) == []
  {
    var text := Cleaning.CleanText(raw);
    var w := Slice(text, a, b);
    assert IsSpace('\n');
    forall j | 0 <= j < |w| ensures MatchLen(BlankLine, w, j) == 0 {
      assert w[j] == text[a + j];
    }
    NoMatchFromAll(BlankLine, w, 0);
    MatchesEmpty(BlankLine, w, 0);
  }

  /** Budget: in character mode no chunk is longer than `chunkSize` characters. */
  lemma CharModeChunksWithinBudget(cfg: Config, text: seq<char>, docId: seq<char>)
    requires LoopAdvances(cfg, text)
    requires cfg.counter.Chars?
    ensures var r := ChunkTextSpec(cfg, text, docId);
      forall k | 0 <= k < |r| :: |r[k].text| <= cfg.chunkSize
  {
    if Count(cfg.counter, text) > cfg.chunkSize && text != [] {
      assert Advances(WalkOf(cfg, text));
      var r := Emit(ClipOf(text), docId, [], WindowsFrom(WalkOf(cfg, text), 0));
      assert ChunkTextSpec(cfg, text, docId) == r;
      CharModeWalkWithin(cfg, text);
      EmitWithin(WalkOf(cfg, text), ClipOf(text), docId, cfg.chunkSize);
      ClipsWithin(text, r, cfg.chunkSize);
    }
  }

  /** Records cut from `text` by windows at most `bound` wide hold at most `bound`
      characters. */
  lemma ClipsWithin(text: seq<char>, r: seq<Chunk>, bound: nat)
    requires NarrowChunks(ClipOf(text), r, bound)
    ensures forall k | 0 <= k < |r| :: |r[k].text| <= bound
  {
    forall k | 0 <= k < |r| ensures |r[k].text| <= bound {
      ClipWithinWidth(text, r[k]);
    }
  }

  /** In character mode every window of the walk is at most `chunkSize` wide. */
  lemma CharModeWalkWithin(cfg: Config, text: seq<char>)
    requires cfg.counter.Chars?
    ensures forall s: nat :: WalkOf(cfg, text).endOf(s) <= s + cfg.chunkSize
  {
    forall s: nat ensures WalkOf(cfg, text).endOf(s) <= s + cfg.chunkSize {
      assert NominalEnd(cfg, text, s) == s + cfg.chunkSize;
    }
  }

  /** A walk whose windows are at most `bound` wide emits records spanning at most
      `bound`. */
  lemma EmitWithin(w: Walk, clip: Window -> seq<char>, docId: seq<char>, bound: nat)
    requires Advances(w)
    requires 0 < w.len
    requires forall s: nat :: w.endOf(s) <= s + bound
    ensures NarrowChunks(clip, Emit(clip, docId, [], WindowsFrom(w, 0)), bound)
  {
    WindowsWithin(w, bound);
    EmitWindowsWithin(clip, docId, WindowsFrom(w, 0), bound);
  }

  /** Every window in `ws` is at most `bound` wide. */
  predicate NarrowWindows(ws: seq<Window>, bound: nat) {
    forall k | 0 <= k < |ws| :: ws[k].end <= ws[k].start + bound
  }

  /** Every record in `r` came from a window at most `bound` wide. */
  predicate NarrowChunks(clip: Window -> seq<char>, r: seq<Chunk>, bound: nat) {
    forall k | 0 <= k < |r| :: FromWindow(clip, r[k]) && r[k].endPosition <= r[k].startPosition + bound
  }

  /** The windows of a walk whose windows are at most `bound` wide. */
  lemma WindowsWithin(w: Walk, bound: nat)
    requires Advances(w)
    requires 0 < w.len
    requires forall s: nat :: w.endOf(s) <= s + bound
    ensures NarrowWindows(WindowsFrom(w, 0), bound)
  {
    WindowsChain(w, 0);
  }

  /** Records emitted from windows at most `bound` wide span at most `bound`. */
  lemma EmitWindowsWithin(clip: Window -> seq<char>, docId: seq<char>, ws: seq<Window>, bound: nat)
    requires NarrowWindows(ws, bound)
    ensures NarrowChunks(clip, Emit(clip, docId, [], ws), bound)
  {
    var r := Emit(clip, docId, [], ws);
    EmitSound(clip, docId, [], ws);
    forall k | 0 <= k < |r| ensures r[k].endPosition <= r[k].startPosition + bound {
      var j :| 0 <= j < |ws| && ws[j] == Window(r[k].startPosition, r[k].endPosition);
    }
  }

  /** A record's text is no longer than its window. */
  lemma ClipWithinWidth(text: seq<char>, c: Chunk)
    requires FromWindow(ClipOf(text), c)
    ensures |c.text| <= c.endPosition - c.startPosition
  {
    var piece := Slice(text, c.startPosition, c.endPosition);
    assert c.text == Strip(piece);
    StripSlice(piece);
  }
}
