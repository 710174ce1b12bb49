/** What one ingestion run does, said of the document, the settings and the store alone: which texts become
    rows, which are quarantined and why, when a run raises, and what it reports. */
module RagOutcome {
  import opened Relational
  import opened RagPipeline

  // ------------------------------------------------------------------ the vocabulary

  /** No row for the text yet under the run's embedding version. */
  predicate Unstored(p: Setup, s: Store, text: string) { Key(p.contentHash(text), p.version) !in s.chunks }

  /** The fields every chunk must have. */
  predicate Complete(p: Setup, d: Document, text: string) {
    && |text| > 0 && |p.contentHash(text)| > 0 && |p.documentHash(d.content)| > 0
    && |d.sourceUri| > 0 && |p.parserVersion| > 0 && |d.accessClass| > 0
  }

  /** Allowed license, allowed access class, nothing personal. */
  predicate Admissible(p: Setup, d: Document, text: string) {
    d.license in p.licenses && d.accessClass in p.accessClasses && |p.pii(text)| == 0
  }

  /** The first of these three conditions that fails. */
  function FirstFailure(p: Setup, d: Document, text: string): Reason {
    if !(d.license in p.licenses) then License(d.license)
    else if !(d.accessClass in p.accessClasses) then AccessClass(d.accessClass)
    else Pii(p.pii(text))
  }

  /** The chunk cut from text `i`. */
  ghost predicate CutFrom(c: Chunk, p: Setup, d: Document, texts: seq<string>, i: int) {
    && 0 <= i < |texts|
    && c.documentHash == p.documentHash(d.content) && c.contentHash == p.contentHash(texts[i])
    && c.index == i && c.text == texts[i]
    && c.sourceUri == d.sourceUri && c.parserVersion == p.parserVersion && c.accessClass == d.accessClass
  }

  predicate Readable(p: Setup, d: Document) { d.contentType == "text/plain" && p.pieces(d.content).Val? }

  /** Text `i` is one the run stores. */
  predicate Taken(p: Setup, s: Store, d: Document, texts: seq<string>, i: int) {
    0 <= i < |texts| && Unstored(p, s, texts[i]) && Complete(p, d, texts[i]) && Admissible(p, d, texts[i])
  }

  /** Text `i` is one the run quarantines. */
  predicate Refused(p: Setup, s: Store, d: Document, texts: seq<string>, i: int) {
    0 <= i < |texts| && Unstored(p, s, texts[i]) && Complete(p, d, texts[i]) && !Admissible(p, d, texts[i])
  }

  predicate SomeGap(p: Setup, s: Store, d: Document, texts: seq<string>) {
    exists i | 0 <= i < |texts| :: Unstored(p, s, texts[i]) && !Complete(p, d, texts[i])
  }

  /** The content hashes of the taken ones among the first `n` texts, in order. */
  function TakenHashes(p: Setup, s: Store, d: Document, texts: seq<string>, n: nat): seq<string>
    requires n <= |texts|
  {
    if n == 0 then []
    else TakenHashes(p, s, d, texts, n - 1)
         + (if Taken(p, s, d, texts, n - 1) then [p.contentHash(texts[n - 1])] else [])
  }

  /** How many of the first `n` texts have no row yet. */
  function UnstoredCount(p: Setup, s: Store, texts: seq<string>, n: nat): nat
    requires n <= |texts|
  {
    if n == 0 then 0 else UnstoredCount(p, s, texts, n - 1) + if Unstored(p, s, texts[n - 1]) then 1 else 0
  }

  // ------------------------------------------------------------------ screening

  lemma {:induction false} VerdictIs(
      p: Setup, byHash: map<string, Document>, d: Document, texts: seq<string>, c: Chunk, i: int)
    requires CutFrom(c, p, d, texts, i) && c.documentHash in byHash && byHash[c.documentHash] == d
    ensures VerdictIn(p, byHash, c)
         == if !Complete(p, d, texts[i]) then Gap
            else if Admissible(p, d, texts[i]) then Clean else Violation(FirstFailure(p, d, texts[i]))
  {
  }

  /** A batch of the document: chunks cut from its texts, without a row, in text order. */
  ghost predicate Batch(p: Setup, s: Store, d: Document, texts: seq<string>, chunks: seq<Chunk>, n: nat) {
    && n <= |texts|
    && (forall k | 0 <= k < |chunks| ::
          && chunks[k].index < n && CutFrom(chunks[k], p, d, texts, chunks[k].index)
          && Unstored(p, s, texts[chunks[k].index]))
    && (forall k, l | 0 <= k < l < |chunks| :: chunks[k].index < chunks[l].index)
    && (forall i | 0 <= i < n && Unstored(p, s, texts[i]) ::
          exists k :: 0 <= k < |chunks| && chunks[k].index == i)
  }

  function UnstoredChunks(p: Setup, s: Store, d: Document, texts: seq<string>, n: nat): seq<Chunk>
    requires n <= |texts|
  {
    Fresh(s.chunks, Chunks(p, d, texts, n), p.version)
  }

  lemma {:induction false} UnstoredStep(p: Setup, s: Store, d: Document, texts: seq<string>, n: nat)
    requires 0 < n <= |texts|
    ensures UnstoredChunks(p, s, d, texts, n)
         == UnstoredChunks(p, s, d, texts, n - 1)
            + (if Unstored(p, s, texts[n - 1]) then [ChunkAt(p, d, texts, n - 1)] else [])
  {
    var all := Chunks(p, d, texts, n);
    assert all[..|all| - 1] == Chunks(p, d, texts, n - 1);
  }

  lemma {:induction false} BatchGrows(
      p: Setup, s: Store, d: Document, texts: seq<string>, before: seq<Chunk>, chunks: seq<Chunk>, n: nat)
    requires 0 < n <= |texts| && Batch(p, s, d, texts, before, n - 1)
    requires chunks == before + (if Unstored(p, s, texts[n - 1]) then [ChunkAt(p, d, texts, n - 1)] else [])
    ensures Batch(p, s, d, texts, chunks, n)
  {
    forall i | 0 <= i < n && Unstored(p, s, texts[i]) ensures exists k :: 0 <= k < |chunks| && chunks[k].index == i {
      if i < n - 1 {
        var k :| 0 <= k < |before| && before[k].index == i;
        assert chunks[k].index == i;
      } else {
        assert chunks[|before|].index == i;
      }
    }
  }

  lemma {:induction false} UnstoredIsBatch(p: Setup, s: Store, d: Document, texts: seq<string>, n: nat)
    requires n <= |texts|
    ensures Batch(p, s, d, texts, UnstoredChunks(p, s, d, texts, n), n)
    ensures |UnstoredChunks(p, s, d, texts, n)| == UnstoredCount(p, s, texts, n)
  {
    if n > 0 {
      UnstoredIsBatch(p, s, d, texts, n - 1);
      UnstoredStep(p, s, d, texts, n);
      BatchGrows(p, s, d, texts, UnstoredChunks(p, s, d, texts, n - 1), UnstoredChunks(p, s, d, texts, n), n);
    }
  }

  lemma {:induction false} ScreenStep(
      p: Setup, byHash: map<string, Document>, q: map<string, Rejected>, chunks: seq<Chunk>, c: Chunk)
    requires c.documentHash in byHash
    ensures var before := Screen(p, byHash, q, chunks);
      Screen(p, byHash, q, chunks + [c])
      == if before.valid.Err? then before
         else match VerdictIn(p, byHash, c)
              case Gap => before.(valid := Err(MetadataGap))
              case Clean => before.(valid := Ok(before.valid.value + [c]))
              case Violation(reason) => before.(quarantine := Quarantined(before.quarantine, c, reason))
  {
    assert (chunks + [c])[..|chunks|] == chunks;
  }

  /** Screening stops at a gap, and otherwise lets through exactly the taken texts. */
  ghost predicate ScreenedTo(p: Setup, s: Store, d: Document, texts: seq<string>, screened: Screening, n: nat)
    requires n <= |texts|
  {
    && (screened.valid.Err? ==> screened.valid.failure == MetadataGap)
    && (screened.valid.Err? <==> exists i | 0 <= i < n :: Unstored(p, s, texts[i]) && !Complete(p, d, texts[i]))
    && (screened.valid.Ok? ==> ContentHashes(screened.valid.value) == TakenHashes(p, s, d, texts, n))
  }

  lemma {:induction false} StoredStep(
      p: Setup, s: Store, d: Document, texts: seq<string>, screened: Screening, n: nat)
    requires 0 < n <= |texts| && ScreenedTo(p, s, d, texts, screened, n - 1) && !Unstored(p, s, texts[n - 1])
    ensures ScreenedTo(p, s, d, texts, screened, n)
  {
    assert TakenHashes(p, s, d, texts, n) == TakenHashes(p, s, d, texts, n - 1);
  }

  lemma {:induction false} ScreenedStep(
      p: Setup, s: Store, d: Document, texts: seq<string>, before: Screening, after: Screening, verdict: Verdict,
      c: Chunk, n: nat)
    requires 0 < n <= |texts| && ScreenedTo(p, s, d, texts, before, n - 1) && Unstored(p, s, texts[n - 1])
    requires c.contentHash == p.contentHash(texts[n - 1])
    requires verdict == if !Complete(p, d, texts[n - 1]) then Gap
                        else if Admissible(p, d, texts[n - 1]) then Clean
                        else Violation(FirstFailure(p, d, texts[n - 1]))
    requires after.valid == if before.valid.Err? then before.valid
                            else if verdict.Gap? then Err(MetadataGap)
                            else if verdict.Clean? then Ok(before.valid.value + [c]) else before.valid
    ensures ScreenedTo(p, s, d, texts, after, n)
  {
    HashesStep(before, c);
    var gap := Unstored(p, s, texts[n - 1]) && !Complete(p, d, texts[n - 1]);
    assert (exists i | 0 <= i < n :: Unstored(p, s, texts[i]) && !Complete(p, d, texts[i]))
      <==> gap || exists i | 0 <= i < n - 1 :: Unstored(p, s, texts[i]) && !Complete(p, d, texts[i]);
  }

  lemma {:induction false} Screened(
      p: Setup, byHash: map<string, Document>, s: Store, d: Document, texts: seq<string>, n: nat)
    requires n <= |texts| && p.documentHash(d.content) in byHash && byHash[p.documentHash(d.content)] == d
    ensures ScreenedTo(p, s, d, texts, Screen(p, byHash, s.quarantine, UnstoredChunks(p, s, d, texts, n)), n)
  {
    if n > 0 {
      Screened(p, byHash, s, d, texts, n - 1);
      UnstoredStep(p, s, d, texts, n);
      var chunks, c := UnstoredChunks(p, s, d, texts, n - 1), ChunkAt(p, d, texts, n - 1);
      var before := Screen(p, byHash, s.quarantine, chunks);
      if Unstored(p, s, texts[n - 1]) {
        ScreenStep(p, byHash, s.quarantine, chunks, c);
        VerdictIs(p, byHash, d, texts, c, n - 1);
        ScreenedStep(p, s, d, texts, before, Screen(p, byHash, s.quarantine, chunks + [c]), VerdictIn(p, byHash, c), c,
                     n);
      } else {
        assert chunks + [] == chunks;
        StoredStep(p, s, d, texts, before, n);
      }
    } else {
      assert UnstoredChunks(p, s, d, texts, 0) == [];
    }
  }

  lemma {:induction false} HashesStep(before: Screening, c: Chunk)
    ensures before.valid.Ok? ==>
              ContentHashes(before.valid.value + [c]) == ContentHashes(before.valid.value) + [c.contentHash]
  {
    if before.valid.Ok? {
      var valid := before.valid.value;
      assert (valid + [c])[..|valid|] == valid;
    }
  }

  // ------------------------------------------------------------------ how a run ends

  /** A readable document goes through screening and writing of its chunks without a row. */
  lemma {:induction false} RunIs(p: Setup, byHash: map<string, Document>, s: Store, d: Document, embeds: bool)
    requires Readable(p, d)
    ensures var texts := p.pieces(d.content).v;
      Ingest(p, byHash, s, d, embeds)
      == Load(p, KnownAfter(p, byHash, d), s, UnstoredChunks(p, s, d, texts, |texts|), embeds)
  {
  }

  /** The ingestion version of a run that took these content hashes. */
  function Stamp(p: Setup, taken: seq<string>): string { p.date + "-" + p.digest(multiset(taken), p.version) }

  /** The report on a batch of so many texts without a row, of which `taken` are to be stored. */
  function Reported(p: Setup, taken: seq<string>, batch: nat, embeds: bool): Result<Report> {
    if taken == [] then Ok(Report(1, 0, batch, ""))
    else if !embeds then Err(EmbeddingFailed)
    else Ok(Report(1, |taken|, batch - |taken|, Stamp(p, taken)))
  }

  lemma {:induction false} WriteIs(
      p: Setup, known: map<string, Document>, s: Store, valid: seq<Chunk>, embeds: bool, stamp: string)
    requires Known(known, valid) && forall i | 0 <= i < |valid| :: KeyOf(valid[i], p.version) !in s.chunks
    requires stamp == IngestionVersion(p, valid)
    ensures var written := Write(p, known, s, valid, p.version, embeds);
      && written.version == (if valid == [] then Ok("") else if !embeds then Err(EmbeddingFailed) else Ok(stamp))
      && written.store.quarantine == s.quarantine
      && (written.version.Ok? ==> written.store.chunks == Insert(s.chunks, valid, p.version, stamp))
  {
    InsertCount(s.chunks, valid, p.version, stamp);
    if valid != [] { assert ContentHashes(valid)[0] in HashSet(valid); }
  }

  /** What loading a batch reports, and what it leaves in the store. */
  lemma {:induction false} LoadIs(
      p: Setup, known: map<string, Document>, s: Store, unseen: seq<Chunk>, embeds: bool, valid: seq<Chunk>)
    requires Screen(p, known, s.quarantine, unseen).valid == Ok(valid)
    requires forall c | c in unseen :: KeyOf(c, p.version) !in s.chunks
    ensures Load(p, known, s, unseen, embeds).report == Reported(p, ContentHashes(valid), |unseen|, embeds)
    ensures Load(p, known, s, unseen, embeds).report.Ok? ==>
              Load(p, known, s, unseen, embeds).store.chunks
              == Insert(s.chunks, valid, p.version, IngestionVersion(p, valid))
    ensures Load(p, known, s, unseen, embeds).store.quarantine == Screen(p, known, s.quarantine, unseen).quarantine
  {
    ScreenedAreKnown(p, known, s.quarantine, unseen);
    forall i | 0 <= i < |valid| ensures KeyOf(valid[i], p.version) !in s.chunks {
      ScreenMeaning(p, known, s.quarantine, unseen, valid[i]);
    }
    var after := s.(quarantine := Screen(p, known, s.quarantine, unseen).quarantine);
    WriteIs(p, known, after, valid, embeds, IngestionVersion(p, valid));
    LoadWrites(p, known, s, unseen, embeds, valid, Write(p, known, after, valid, p.version, embeds));
    ReportedIs(p, unseen, valid, embeds);
  }

  lemma {:induction false} LoadWrites(
      p: Setup, known: map<string, Document>, s: Store, unseen: seq<Chunk>, embeds: bool, valid: seq<Chunk>,
      written: Written)
    requires Screen(p, known, s.quarantine, unseen).valid == Ok(valid) && Known(known, valid)
    requires var after := s.(quarantine := Screen(p, known, s.quarantine, unseen).quarantine);
      written == Write(p, known, after, valid, p.version, embeds)
    ensures Load(p, known, s, unseen, embeds)
         == Run(written.store, if written.version.Err? then Err(written.version.failure)
                               else Ok(ReportOf(unseen, valid, written.version.value)))
  {
  }

  lemma {:induction false} ReportedIs(p: Setup, unseen: seq<Chunk>, valid: seq<Chunk>, embeds: bool)
    ensures Reported(p, ContentHashes(valid), |unseen|, embeds)
         == if valid == [] then Ok(ReportOf(unseen, valid, ""))
            else if !embeds then Err(EmbeddingFailed)
            else Ok(ReportOf(unseen, valid, IngestionVersion(p, valid)))
  {
  }

  lemma {:induction false} BatchIsUnstored(p: Setup, s: Store, d: Document, texts: seq<string>, unseen: seq<Chunk>)
    requires Batch(p, s, d, texts, unseen, |texts|)
    ensures forall c | c in unseen :: KeyOf(c, p.version) !in s.chunks && c.documentHash == p.documentHash(d.content)
  {
    forall c | c in unseen ensures KeyOf(c, p.version) !in s.chunks && c.documentHash == p.documentHash(d.content) {
      var k :| 0 <= k < |unseen| && unseen[k] == c;
    }
  }

  /** How every run ends: it raises on a type it cannot read, on bytes it cannot decode, on a chunk without a
      row that lacks a field, and on a backend failure with something to store; otherwise it finishes and
      reports what it took, what it did not, and the day and digest of what it took. */
  lemma {:induction false} ReportMeaning(p: Setup, byHash: map<string, Document>, s: Store, d: Document, embeds: bool)
    ensures Ingest(p, byHash, s, d, embeds).report
         == if d.contentType != "text/plain" then Err(UnsupportedType)
            else if p.pieces(d.content).Null? then Err(Undecodable)
            else
              var texts := p.pieces(d.content).v;
              if SomeGap(p, s, d, texts) then Err(MetadataGap)
              else Reported(p, TakenHashes(p, s, d, texts, |texts|), UnstoredCount(p, s, texts, |texts|), embeds)
  {
    if Readable(p, d) {
      var texts, known := p.pieces(d.content).v, KnownAfter(p, byHash, d);
      RunIs(p, byHash, s, d, embeds);
      UnstoredIsBatch(p, s, d, texts, |texts|);
      BatchReport(p, known, s, d, texts, UnstoredChunks(p, s, d, texts, |texts|), embeds);
    }
  }

  lemma {:induction false} BatchReport(
      p: Setup, known: map<string, Document>, s: Store, d: Document, texts: seq<string>, unseen: seq<Chunk>,
      embeds: bool)
    requires p.documentHash(d.content) in known && known[p.documentHash(d.content)] == d
    requires Batch(p, s, d, texts, unseen, |texts|) && unseen == UnstoredChunks(p, s, d, texts, |texts|)
    ensures Load(p, known, s, unseen, embeds).report
         == if SomeGap(p, s, d, texts) then Err(MetadataGap)
            else Reported(p, TakenHashes(p, s, d, texts, |texts|), |unseen|, embeds)
  {
    Screened(p, known, s, d, texts, |texts|);
    BatchIsUnstored(p, s, d, texts, unseen);
    var screened := Screen(p, known, s.quarantine, unseen);
    if screened.valid.Ok? { LoadIs(p, known, s, unseen, embeds, screened.valid.value); }
  }

  // ------------------------------------------------------------------ the rows

  /** The first chunk of its key is the one a new row holds. */
  lemma {:induction false} InsertFirst(
      rows: map<Key, Row>, chunks: seq<Chunk>, version: string, stamp: string, k: Key)
    returns (i: nat)
    requires k in Insert(rows, chunks, version, stamp) && k !in rows
    ensures i < |chunks| && Insert(rows, chunks, version, stamp)[k] == Row(chunks[i], stamp)
    ensures KeyOf(chunks[i], version) == k && forall j | 0 <= j < i :: KeyOf(chunks[j], version) != k
  {
    var rest, last := chunks[..|chunks| - 1], chunks[|chunks| - 1];
    if k in Insert(rows, rest, version, stamp) {
      i := InsertFirst(rows, rest, version, stamp, k);
    } else {
      i := |rest|;
      forall j | 0 <= j < i ensures KeyOf(chunks[j], version) != k {
        InsertMeaning(rows, rest, version, stamp, k);
        assert rest[j] in rest;
      }
    }
  }

  /** What screening lets through keeps the order of the texts. */
  lemma {:induction false} ValidAscends(
      p: Setup, byHash: map<string, Document>, q: map<string, Rejected>, chunks: seq<Chunk>)
    requires forall k, l | 0 <= k < l < |chunks| :: chunks[k].index < chunks[l].index
    requires Screen(p, byHash, q, chunks).valid.Ok?
    ensures var valid := Screen(p, byHash, q, chunks).valid.value;
      forall k, l | 0 <= k < l < |valid| :: valid[k].index < valid[l].index
  {
    if chunks != [] {
      var rest, last := chunks[..|chunks| - 1], chunks[|chunks| - 1];
      ValidAscends(p, byHash, q, rest);
      forall c | c in Screen(p, byHash, q, rest).valid.value ensures c.index < last.index {
        ScreenMeaning(p, byHash, q, rest, c);
        var k :| 0 <= k < |rest| && rest[k] == c;
        assert chunks[k].index < chunks[|rest|].index;
      }
    }
  }

  lemma {:induction false} BatchMember(
      p: Setup, s: Store, d: Document, texts: seq<string>, unseen: seq<Chunk>, c: Chunk)
    requires Batch(p, s, d, texts, unseen, |texts|)
    ensures c in unseen <==> CutFrom(c, p, d, texts, c.index) && Unstored(p, s, texts[c.index])
  {
    if c in unseen { var k :| 0 <= k < |unseen| && unseen[k] == c; }
    if CutFrom(c, p, d, texts, c.index) && Unstored(p, s, texts[c.index]) {
      var k :| 0 <= k < |unseen| && unseen[k].index == c.index;
      assert unseen[k] == c;
    }
  }

  lemma {:induction false} ValidIff(
      p: Setup, known: map<string, Document>, s: Store, d: Document, texts: seq<string>, unseen: seq<Chunk>, c: Chunk)
    requires p.documentHash(d.content) in known && known[p.documentHash(d.content)] == d
    requires Batch(p, s, d, texts, unseen, |texts|) && Screen(p, known, s.quarantine, unseen).valid.Ok?
    ensures c in Screen(p, known, s.quarantine, unseen).valid.value
       <==> CutFrom(c, p, d, texts, c.index) && Taken(p, s, d, texts, c.index)
  {
    BatchMember(p, s, d, texts, unseen, c);
    ScreenMeaning(p, known, s.quarantine, unseen, c);
    if CutFrom(c, p, d, texts, c.index) { VerdictIs(p, known, d, texts, c, c.index); }
  }

  /** A row for `k` that holds the first of the taken texts with that key. */
  ghost predicate HoldsFirst(p: Setup, s: Store, d: Document, texts: seq<string>, k: Key, row: Row) {
    var i := row.chunk.index;
    TakenAs(p, s, d, texts, k, i) && CutFrom(row.chunk, p, d, texts, i)
    && forall j | TakenAs(p, s, d, texts, k, j) :: i <= j
  }

  /** A run that finishes adds a row exactly for the keys of the taken texts. The row holds the first text of
      that key, cut from this document, and the reported version; every earlier row stays as it was. */
  lemma {:induction false} RowMeaning(
      p: Setup, byHash: map<string, Document>, s: Store, d: Document, embeds: bool, k: Key)
    requires Ingest(p, byHash, s, d, embeds).report.Ok?
    ensures Readable(p, d)
    ensures var run, texts := Ingest(p, byHash, s, d, embeds), p.pieces(d.content).v;
      if k in s.chunks then k in run.store.chunks && run.store.chunks[k] == s.chunks[k]
      else if exists i :: TakenAs(p, s, d, texts, k, i) then
        && k in run.store.chunks && HoldsFirst(p, s, d, texts, k, run.store.chunks[k])
        && run.store.chunks[k].ingestionVersion == run.report.value.ingestionVersion
      else k !in run.store.chunks
  {
    var texts, known := p.pieces(d.content).v, KnownAfter(p, byHash, d);
    var unseen := UnstoredChunks(p, s, d, texts, |texts|);
    RunIs(p, byHash, s, d, embeds);
    UnstoredIsBatch(p, s, d, texts, |texts|);
    BatchIsUnstored(p, s, d, texts, unseen);
    var valid := Screen(p, known, s.quarantine, unseen).valid.value;
    LoadIs(p, known, s, unseen, embeds, valid);
    InsertMeaning(s.chunks, valid, p.version, IngestionVersion(p, valid), k);
    if k !in s.chunks { NewRow(p, known, s, d, texts, unseen, IngestionVersion(p, valid), k); }
  }

  /** Text `i` is taken and has this key. */
  predicate TakenAs(p: Setup, s: Store, d: Document, texts: seq<string>, k: Key, i: int) {
    Taken(p, s, d, texts, i) && k == Key(p.contentHash(texts[i]), p.version)
  }

  /** The position of taken text `i` among the chunks screening let through. */
  lemma {:induction false} TakenPosition(
      p: Setup, known: map<string, Document>, s: Store, d: Document, texts: seq<string>, unseen: seq<Chunk>, k: Key,
      i: int)
    returns (j: int)
    requires p.documentHash(d.content) in known && known[p.documentHash(d.content)] == d
    requires Batch(p, s, d, texts, unseen, |texts|) && Screen(p, known, s.quarantine, unseen).valid.Ok?
    requires TakenAs(p, s, d, texts, k, i)
    ensures var valid := Screen(p, known, s.quarantine, unseen).valid.value;
      0 <= j < |valid| && valid[j].index == i && KeyOf(valid[j], p.version) == k
  {
    var valid := Screen(p, known, s.quarantine, unseen).valid.value;
    var c := ChunkAt(p, d, texts, i);
    ValidIff(p, known, s, d, texts, unseen, c);
    j :| 0 <= j < |valid| && valid[j] == c;
  }

  lemma {:induction false} NewRow(
      p: Setup, known: map<string, Document>, s: Store, d: Document, texts: seq<string>, unseen: seq<Chunk>,
      stamp: string, k: Key)
    requires p.documentHash(d.content) in known && known[p.documentHash(d.content)] == d && k !in s.chunks
    requires Batch(p, s, d, texts, unseen, |texts|) && Screen(p, known, s.quarantine, unseen).valid.Ok?
    ensures var after := Insert(s.chunks, Screen(p, known, s.quarantine, unseen).valid.value, p.version, stamp);
      && (k in after <==> exists i :: TakenAs(p, s, d, texts, k, i))
      && (k in after ==> after[k].ingestionVersion == stamp && HoldsFirst(p, s, d, texts, k, after[k]))
  {
    var valid := Screen(p, known, s.quarantine, unseen).valid.value;
    var after := Insert(s.chunks, valid, p.version, stamp);
    InsertMeaning(s.chunks, valid, p.version, stamp, k);
    if i :| TakenAs(p, s, d, texts, k, i) { var j := TakenPosition(p, known, s, d, texts, unseen, k, i); }
    if k in after { FirstIsHeld(p, known, s, d, texts, unseen, stamp, k); }
  }

  lemma {:induction false} FirstIsHeld(
      p: Setup, known: map<string, Document>, s: Store, d: Document, texts: seq<string>, unseen: seq<Chunk>,
      stamp: string, k: Key)
    requires p.documentHash(d.content) in known && known[p.documentHash(d.content)] == d && k !in s.chunks
    requires Batch(p, s, d, texts, unseen, |texts|) && Screen(p, known, s.quarantine, unseen).valid.Ok?
    requires k in Insert(s.chunks, Screen(p, known, s.quarantine, unseen).valid.value, p.version, stamp)
    ensures var row := Insert(s.chunks, Screen(p, known, s.quarantine, unseen).valid.value, p.version, stamp)[k];
      && row.ingestionVersion == stamp && HoldsFirst(p, s, d, texts, k, row)
      && TakenAs(p, s, d, texts, k, row.chunk.index)
  {
    var valid := Screen(p, known, s.quarantine, unseen).valid.value;
    var n := InsertFirst(s.chunks, valid, p.version, stamp, k);
    ValidAscends(p, known, s.quarantine, unseen);
    ValidIff(p, known, s, d, texts, unseen, valid[n]);
    forall i | TakenAs(p, s, d, texts, k, i) ensures valid[n].index <= i {
      var j := TakenPosition(p, known, s, d, texts, unseen, k, i);
    }
  }

  /** Documents only grow by the run's own, registered once something of it is to be stored. */
  lemma {:induction false} DocumentMeaning(p: Setup, byHash: map<string, Document>, s: Store, d: Document, embeds: bool)
    requires Readable(p, d)
    ensures var run, texts, parent := Ingest(p, byHash, s, d, embeds), p.pieces(d.content).v, p.documentHash(d.content);
      run.store.documents
      == if SomeGap(p, s, d, texts) || TakenHashes(p, s, d, texts, |texts|) == [] || parent in s.documents
         then s.documents else s.documents[parent := d]
  {
    var texts, known := p.pieces(d.content).v, KnownAfter(p, byHash, d);
    var unseen := UnstoredChunks(p, s, d, texts, |texts|);
    RunIs(p, byHash, s, d, embeds);
    Screened(p, known, s, d, texts, |texts|);
    UnstoredIsBatch(p, s, d, texts, |texts|);
    if !SomeGap(p, s, d, texts) {
      var valid := Screen(p, known, s.quarantine, unseen).valid.value;
      ScreenedAreKnown(p, known, s.quarantine, unseen);
      ValidParents(p, known, s, d, texts, unseen);
      LoadDocuments(p, known, s, unseen, embeds, valid);
      ParentAdded(s.documents, known, p.documentHash(d.content));
    }
  }

  lemma {:induction false} ValidParents(
      p: Setup, known: map<string, Document>, s: Store, d: Document, texts: seq<string>, unseen: seq<Chunk>)
    requires Batch(p, s, d, texts, unseen, |texts|) && Screen(p, known, s.quarantine, unseen).valid.Ok?
    ensures var valid := Screen(p, known, s.quarantine, unseen).valid.value;
      DocumentHashes(valid) == if ContentHashes(valid) == [] then {} else {p.documentHash(d.content)}
  {
    var valid := Screen(p, known, s.quarantine, unseen).valid.value;
    BatchIsUnstored(p, s, d, texts, unseen);
    forall c | c in valid ensures c.documentHash == p.documentHash(d.content) {
      ScreenMeaning(p, known, s.quarantine, unseen, c);
    }
    if valid != [] { assert valid[0] in valid; }
  }

  lemma {:induction false} LoadDocuments(
      p: Setup, known: map<string, Document>, s: Store, unseen: seq<Chunk>, embeds: bool, valid: seq<Chunk>)
    requires Screen(p, known, s.quarantine, unseen).valid == Ok(valid) && Known(known, valid)
    ensures Load(p, known, s, unseen, embeds).store.documents
         == if ContentHashes(valid) == [] then s.documents else WithParents(s.documents, known, DocumentHashes(valid))
  {
    var after := s.(quarantine := Screen(p, known, s.quarantine, unseen).quarantine);
    LoadWrites(p, known, s, unseen, embeds, valid, Write(p, known, after, valid, p.version, embeds));
  }

  // ------------------------------------------------------------------ the quarantine

  predicate Violates(p: Setup, known: map<string, Document>, c: Chunk, h: string) {
    c.contentHash == h && VerdictIn(p, known, c).Violation?
  }

  /** The record holds the first violating chunk of its hash. */
  ghost predicate FirstRecord(
      p: Setup, known: map<string, Document>, chunks: seq<Chunk>, h: string, record: Rejected, i: int) {
    && 0 <= i < |chunks| && Violates(p, known, chunks[i], h)
    && record == Rejected(chunks[i], VerdictIn(p, known, chunks[i]).reason)
    && forall j | 0 <= j < i :: !Violates(p, known, chunks[j], h)
  }

  lemma {:induction false} RecordStep(
      p: Setup, known: map<string, Document>, rest: seq<Chunk>, last: Chunk, h: string, before: map<string, Rejected>)
    returns (i: int)
    requires forall j | 0 <= j < |rest| :: Violates(p, known, rest[j], h) ==> h in before
    requires h in before ==> exists j :: FirstRecord(p, known, rest, h, before[h], j)
    requires h in before || Violates(p, known, last, h)
    ensures var record := if h in before then before[h] else Rejected(last, VerdictIn(p, known, last).reason);
      FirstRecord(p, known, rest + [last], h, record, i)
  {
    var chunks := rest + [last];
    if h in before {
      i :| FirstRecord(p, known, rest, h, before[h], i);
    } else {
      i := |rest|;
    }
    forall j | 0 <= j < i ensures !Violates(p, known, chunks[j], h) { assert chunks[j] == rest[j]; }
  }

  /** Old records stay, and a new one is the first violating chunk of its hash. */
  ghost predicate Recorded(
      p: Setup, known: map<string, Document>, q: map<string, Rejected>, chunks: seq<Chunk>,
      after: map<string, Rejected>, h: string) {
    && (h in q ==> h in after && after[h] == q[h])
    && (h !in q ==> (h in after <==> exists c | c in chunks :: Violates(p, known, c, h)))
    && (h in after && h !in q ==> exists i :: FirstRecord(p, known, chunks, h, after[h], i))
  }

  lemma {:induction false} RecordedNext(
      p: Setup, known: map<string, Document>, q: map<string, Rejected>, rest: seq<Chunk>, last: Chunk,
      before: map<string, Rejected>, after: map<string, Rejected>, h: string)
    requires Recorded(p, known, q, rest, before, h)
    requires var verdict := VerdictIn(p, known, last);
      after == if verdict.Violation? then Quarantined(before, last, verdict.reason) else before
    ensures Recorded(p, known, q, rest + [last], after, h)
  {
    assert forall c :: c in rest + [last] <==> c in rest || c == last;
    if h in after && h !in q {
      forall j | 0 <= j < |rest| ensures Violates(p, known, rest[j], h) ==> h in before { assert rest[j] in rest; }
      var i := RecordStep(p, known, rest, last, h, before);
    }
  }

  /** Quarantine after screening. */
  lemma {:induction false} RecordFirst(
      p: Setup, known: map<string, Document>, q: map<string, Rejected>, chunks: seq<Chunk>, h: string)
    requires (forall c | c in chunks :: c.documentHash in known) && Screen(p, known, q, chunks).valid.Ok?
    ensures Recorded(p, known, q, chunks, Screen(p, known, q, chunks).quarantine, h)
  {
    if chunks != [] {
      var rest, last := chunks[..|chunks| - 1], chunks[|chunks| - 1];
      assert chunks == rest + [last] && last in chunks && forall c | c in rest :: c in chunks;
      ScreenStep(p, known, q, rest, last);
      RecordFirst(p, known, q, rest, h);
      RecordedNext(p, known, q, rest, last, Screen(p, known, q, rest).quarantine,
                   Screen(p, known, q, chunks).quarantine, h);
    }
  }

  /** A record for `h` that holds the first of the refused texts with that hash, and the first condition it fails. */
  ghost predicate RecordsFirst(p: Setup, s: Store, d: Document, texts: seq<string>, h: string, record: Rejected) {
    var i := record.chunk.index;
    && Refused(p, s, d, texts, i) && CutFrom(record.chunk, p, d, texts, i) && p.contentHash(texts[i]) == h
    && record.reason == FirstFailure(p, d, texts[i])
    && forall j | Refused(p, s, d, texts, j) && p.contentHash(texts[j]) == h :: i <= j
  }

  /** A run that finishes quarantines exactly the hashes of the refused texts. A new record holds the first
      refused text of its hash and the first condition that text fails; earlier records stay as they were. */
  lemma {:induction false} QuarantineMeaning(
      p: Setup, byHash: map<string, Document>, s: Store, d: Document, embeds: bool, h: string)
    requires Ingest(p, byHash, s, d, embeds).report.Ok?
    ensures Readable(p, d)
    ensures var after, texts := Ingest(p, byHash, s, d, embeds).store.quarantine, p.pieces(d.content).v;
      if h in s.quarantine then h in after && after[h] == s.quarantine[h]
      else if exists i :: Refused(p, s, d, texts, i) && p.contentHash(texts[i]) == h then
        h in after && RecordsFirst(p, s, d, texts, h, after[h])
      else h !in after
  {
    var texts, known := p.pieces(d.content).v, KnownAfter(p, byHash, d);
    var unseen := UnstoredChunks(p, s, d, texts, |texts|);
    RunIs(p, byHash, s, d, embeds);
    UnstoredIsBatch(p, s, d, texts, |texts|);
    BatchIsUnstored(p, s, d, texts, unseen);
    LoadIs(p, known, s, unseen, embeds, Screen(p, known, s.quarantine, unseen).valid.value);
    RecordFirst(p, known, s.quarantine, unseen, h);
    if h !in s.quarantine { NewRecord(p, known, s, d, texts, unseen, h); }
  }

  lemma {:induction false} ViolatesIff(
      p: Setup, known: map<string, Document>, s: Store, d: Document, texts: seq<string>, unseen: seq<Chunk>, c: Chunk,
      h: string)
    requires p.documentHash(d.content) in known && known[p.documentHash(d.content)] == d
    requires Batch(p, s, d, texts, unseen, |texts|)
    ensures c in unseen && Violates(p, known, c, h)
       <==> CutFrom(c, p, d, texts, c.index) && Refused(p, s, d, texts, c.index) && c.contentHash == h
  {
    BatchMember(p, s, d, texts, unseen, c);
    if CutFrom(c, p, d, texts, c.index) { VerdictIs(p, known, d, texts, c, c.index); }
  }

  /** The position of refused text `i` among the chunks of the batch. */
  lemma {:induction false} RefusedPosition(
      p: Setup, known: map<string, Document>, s: Store, d: Document, texts: seq<string>, unseen: seq<Chunk>, h: string,
      i: int)
    returns (j: int)
    requires p.documentHash(d.content) in known && known[p.documentHash(d.content)] == d
    requires Batch(p, s, d, texts, unseen, |texts|)
    requires Refused(p, s, d, texts, i) && p.contentHash(texts[i]) == h
    ensures 0 <= j < |unseen| && unseen[j].index == i && Violates(p, known, unseen[j], h)
  {
    var c := ChunkAt(p, d, texts, i);
    ViolatesIff(p, known, s, d, texts, unseen, c, h);
    j :| 0 <= j < |unseen| && unseen[j] == c;
  }

  lemma {:induction false} NewRecord(
      p: Setup, known: map<string, Document>, s: Store, d: Document, texts: seq<string>, unseen: seq<Chunk>, h: string)
    requires p.documentHash(d.content) in known && known[p.documentHash(d.content)] == d && h !in s.quarantine
    requires Batch(p, s, d, texts, unseen, |texts|) && Screen(p, known, s.quarantine, unseen).valid.Ok?
    ensures var after := Screen(p, known, s.quarantine, unseen).quarantine;
      && (h in after <==> exists i :: Refused(p, s, d, texts, i) && p.contentHash(texts[i]) == h)
      && (h in after ==> RecordsFirst(p, s, d, texts, h, after[h]))
  {
    var after := Screen(p, known, s.quarantine, unseen).quarantine;
    BatchIsUnstored(p, s, d, texts, unseen);
    RecordFirst(p, known, s.quarantine, unseen, h);
    if i :| Refused(p, s, d, texts, i) && p.contentHash(texts[i]) == h {
      var j := RefusedPosition(p, known, s, d, texts, unseen, h, i);
      assert unseen[j] in unseen;
    }
    if h in after {
      var n :| FirstRecord(p, known, unseen, h, after[h], n);
      FirstIsRecorded(p, known, s, d, texts, unseen, h, after[h], n);
    }
  }

  lemma {:induction false} FirstIsRecorded(
      p: Setup, known: map<string, Document>, s: Store, d: Document, texts: seq<string>, unseen: seq<Chunk>, h: string,
      record: Rejected, n: int)
    requires p.documentHash(d.content) in known && known[p.documentHash(d.content)] == d
    requires Batch(p, s, d, texts, unseen, |texts|) && FirstRecord(p, known, unseen, h, record, n)
    ensures RecordsFirst(p, s, d, texts, h, record)
  {
    ViolatesIff(p, known, s, d, texts, unseen, unseen[n], h);
    VerdictIs(p, known, d, texts, unseen[n], unseen[n].index);
    forall i | Refused(p, s, d, texts, i) && p.contentHash(texts[i]) == h ensures unseen[n].index <= i {
      var j := RefusedPosition(p, known, s, d, texts, unseen, h, i);
    }
  }
}
