/**
 * `ContentProcessor.process_file` once the file's text has been extracted and cleaned:
 * the text is chunked under the document id `module_stem`, every chunk becomes an upload
 * record carrying its metadata, and a summary counts the records and their units.
 */
module Ingest {
  import opened Strings
  import opened Boundaries
  import opened Chunking

  /** What the file's path and `stat()` give: `path.name`, `path.stem`, the lower-cased
      suffix and the size in bytes. */
  datatype FileInfo = FileInfo(name: seq<char>, stem: seq<char>, extension: seq<char>, size: nat)

  /** The `metadata` dictionary of one record. `startTs` is the chunk's start position. */
  datatype Metadata = Metadata(originalDocId: seq<char>, moduleName: seq<char>, chunkId: seq<char>,
                               chunkIndex: nat, startTs: nat, filename: seq<char>,
                               fileExtension: seq<char>, fileSize: nat, tokenCount: nat)

  /** One upload record: the chunk id doubles as the record's `doc_id`. */
  datatype Record = Record(docId: seq<char>, text: seq<char>, metadata: Metadata)

  /** The per-file summary. */
  datatype Summary = Summary(docId: seq<char>, filename: seq<char>, chunksCreated: nat,
                             totalTokens: nat, fileSize: nat)

  /** `f"{module}_{file_path.stem}"`. */
  function DocId(moduleName: seq<char>, info: FileInfo): seq<char>
  {
    moduleName + "_" + info.stem
  }

  /** The record built for chunk `c` of the document `module_stem`. */
  function RecordOf(cfg: Config, moduleName: seq<char>, info: FileInfo, c: Chunk): Record
  {
    Record(c.chunkId, c.text,
           Metadata(DocId(moduleName, info), moduleName, c.chunkId, c.chunkIndex, c.startPosition,
                    info.name, info.extension, info.size, Count(cfg.counter, c.text)))
  }

  /** The records for `chunks`, one per chunk and in the same order. */
  function RecordsOf(cfg: Config, moduleName: seq<char>, info: FileInfo, chunks: seq<Chunk>): (r: seq<Record>)
    ensures |r| == |chunks|
    ensures forall k | 0 <= k < |r| :: r[k] == RecordOf(cfg, moduleName, info, chunks[k])
  {
    if chunks == [] then []
    else RecordsOf(cfg, moduleName, info, chunks[..|chunks| - 1]) + [RecordOf(cfg, moduleName, info, chunks[|chunks| - 1])]
  }

  /** `sum(count(chunk['text']) for chunk in chunks)`. */
  function TotalTokens(c: Counter, chunks: seq<Chunk>): nat
  {
    if chunks == [] then 0
    else TotalTokens(c, chunks[..|chunks| - 1]) + Count(c, chunks[|chunks| - 1].text)
  }

  /** The total over two runs of chunks is the sum of their totals, so the records of
      windows added after the corrected ones add their own counts on top. */
  lemma {:induction false} TotalTokensAppend(c: Counter, a: seq<Chunk>, b: seq<Chunk>)
    ensures TotalTokens(c, a + b) == TotalTokens(c, a) + TotalTokens(c, b)
    decreases |b|
  {
    if b != [] {
      var front := b[..|b| - 1];
      TotalTokensAppend(c, a, front);
      assert (a + b)[..|a + b| - 1] == a + front;
      assert (a + b)[|a + b| - 1] == b[|b| - 1];
    } else {
      assert a + b == a;
    }
  }

  /** The sum of the `token_count` fields of `records`. */
  function SumTokenCounts(records: seq<Record>): nat
  {
    if records == [] then 0
    else SumTokenCounts(records[..|records| - 1]) + records[|records| - 1].metadata.tokenCount
  }

  /** `process_file` on the extracted text `text` of the file described by `info`. */
  method ProcessFile(cfg: Config, moduleName: seq<char>, info: FileInfo, text: seq<char>)
    returns (records: seq<Record>, summary: Summary)
    requires Monotone(cfg.counter)
    requires LoopAdvances(cfg, text)
    ensures var docId := DocId(moduleName, info);
      var chunks := ChunkTextSpec(cfg, text, docId);
      records == RecordsOf(cfg, moduleName, info, chunks)
      && summary == Summary(docId, info.name, |chunks|, TotalTokens(cfg.counter, chunks), info.size)
    ensures RecordsNumbered(moduleName, info, records)
    ensures summary.chunksCreated == |records|
    ensures summary.totalTokens == SumTokenCounts(records)
  {
    var docId := DocId(moduleName, info);
    var chunks := ChunkText(cfg, text, docId);
    records := BuildRecords(cfg, moduleName, info, chunks);
    summary := Summary(docId, info.name, |records|, TotalTokens(cfg.counter, chunks), info.size);
    ProcessedIds(cfg, moduleName, info, chunks);
    RecordsCountTokens(cfg, moduleName, info, chunks);
  }

  /** The record loop of `process_file`: one record per chunk, appended in order. */
  method BuildRecords(cfg: Config, moduleName: seq<char>, info: FileInfo, chunks: seq<Chunk>)
    returns (records: seq<Record>)
    ensures records == RecordsOf(cfg, moduleName, info, chunks)
  {
    records := [];
    for i := 0 to |chunks|
      invariant records == RecordsOf(cfg, moduleName, info, chunks[..i])
    {
      assert chunks[..i + 1][..i] == chunks[..i];
      var chunk := chunks[i];
      records := records + [RecordOf(cfg, moduleName, info, chunk)];
    }
    assert chunks[..|chunks|] == chunks;
  }

  /** The records are numbered 0, 1, 2, ... and their ids read `module_stem_chunk_i`. */
  predicate RecordsNumbered(moduleName: seq<char>, info: FileInfo, rs: seq<Record>) {
    forall k | 0 <= k < |rs| ::
      rs[k].docId == moduleName + "_" + info.stem + "_chunk_" + NatToString(k)
      && rs[k].metadata.chunkIndex == k
  }

  /** Record ids: the records built from numbered chunks are numbered in turn. */
  lemma ProcessedIds(cfg: Config, moduleName: seq<char>, info: FileInfo, chunks: seq<Chunk>)
    requires Numbered(DocId(moduleName, info), chunks)
    ensures RecordsNumbered(moduleName, info, RecordsOf(cfg, moduleName, info, chunks))
  {
    var rs := RecordsOf(cfg, moduleName, info, chunks);
    forall k | 0 <= k < |rs|
      ensures rs[k].docId == moduleName + "_" + info.stem + "_chunk_" + NatToString(k)
    {
      assert rs[k].docId == chunks[k].chunkId == ChunkId(DocId(moduleName, info), k);
    }
  }

  /** The summary's total is the sum of the records' `token_count` fields. */
  lemma {:induction false} RecordsCountTokens(cfg: Config, moduleName: seq<char>, info: FileInfo, chunks: seq<Chunk>)
    ensures SumTokenCounts(RecordsOf(cfg, moduleName, info, chunks)) == TotalTokens(cfg.counter, chunks)
  {
    if chunks != [] {
      var front := chunks[..|chunks| - 1];
      RecordsCountTokens(cfg, moduleName, info, front);
      var rs := RecordsOf(cfg, moduleName, info, chunks);
      assert rs[..|rs| - 1] == RecordsOf(cfg, moduleName, info, front);
    }
  }

  /** Record ids are unique within a file: two records of one `process_file` call never
      share a `doc_id`. */
  lemma ProcessedIdsDistinct(cfg: Config, moduleName: seq<char>, info: FileInfo, text: seq<char>)
    requires LoopAdvances(cfg, text)
    ensures var rs := RecordsOf(cfg, moduleName, info, ChunkTextSpec(cfg, text, DocId(moduleName, info)));
      forall i, j | 0 <= i < j < |rs| :: rs[i].docId != rs[j].docId
  {
    var docId := DocId(moduleName, info);
    var chunks := ChunkTextSpec(cfg, text, docId);
    var rs := RecordsOf(cfg, moduleName, info, chunks);
    ChunkTextNumbered(cfg, text, docId);
    forall i, j | 0 <= i < j < |rs| ensures rs[i].docId != rs[j].docId {
      var a, b := ChunkId(docId, i), ChunkId(docId, j);
      assert rs[i].docId == a && rs[j].docId == b;
      assert ParseDigits(a[|docId| + 7..]) != ParseDigits(b[|docId| + 7..]);
    }
  }

  /** In character mode every record's `token_count` is within `chunkSize`, and the
      summary's total is at most `chunkSize` per record. */
  lemma CharModeRecordsWithinBudget(cfg: Config, moduleName: seq<char>, info: FileInfo, text: seq<char>)
    requires LoopAdvances(cfg, text)
    requires cfg.counter.Chars?
    ensures var chunks := ChunkTextSpec(cfg, text, DocId(moduleName, info));
      var rs := RecordsOf(cfg, moduleName, info, chunks);
      (forall k | 0 <= k < |rs| :: rs[k].metadata.tokenCount <= cfg.chunkSize)
      && TotalTokens(cfg.counter, chunks) <= |rs| * cfg.chunkSize
  {
    var chunks := ChunkTextSpec(cfg, text, DocId(moduleName, info));
    CharModeChunksWithinBudget(cfg, text, DocId(moduleName, info));
    TotalWithinBudget(cfg.counter, chunks, cfg.chunkSize);
  }

  /** A sum of counts each at most `bound` is at most `bound` per chunk. */
  lemma {:induction false} TotalWithinBudget(c: Counter, chunks: seq<Chunk>, bound: nat)
    requires forall k | 0 <= k < |chunks| :: Count(c, chunks[k].text) <= bound
    ensures TotalTokens(c, chunks) <= |chunks| * bound
  {
    if chunks != [] {
      TotalWithinBudget(c, chunks[..|chunks| - 1], bound);
    }
  }
}
