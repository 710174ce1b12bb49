/** RAG ingestion over a keyed store: parse, deduplicate, screen, write. Hashing, chunking, decoding and
    PII detection are inputs, and so is whether the embedding backend answers; its vectors are not modelled. */
module RagPipeline {
  import opened Relational

  datatype Document = Document(sourceUri: string, content: string, contentType: string, license: string,
                               accessClass: string)

  datatype Chunk = Chunk(
    documentHash: string, contentHash: string, index: int, text: string,
    sourceUri: string, parserVersion: string, accessClass: string)

  datatype Key = Key(contentHash: string, version: string)
  datatype Row = Row(chunk: Chunk, ingestionVersion: string)
  datatype Reason = License(license: string) | AccessClass(accessClass: string) | Pii(kinds: set<string>)
  datatype Rejected = Rejected(chunk: Chunk, reason: Reason)

  /** `rag_document`, `rag_chunk` and `rag_quarantine`, each under its unique key. */
  datatype Store = Store(documents: map<string, Document>, chunks: map<Key, Row>, quarantine: map<string, Rejected>)

  datatype Failure = UnknownSource | UnsupportedType | Undecodable | MetadataGap | UnknownDocument
                   | VersionMismatch | EmbeddingFailed
  datatype Result<+T> = Ok(value: T) | Err(failure: Failure)

  /** `pieces` is the normalized chunk list of a document, Null when its bytes are not UTF-8;
      `digest` is the hash of the sorted content hashes and the embedding version. */
  datatype Setup = Setup(
    documentHash: string -> string, contentHash: string -> string, pieces: string -> Cell<seq<string>>,
    pii: string -> set<string>, digest: (multiset<string>, string) -> string,
    parserVersion: string, version: string, date: string,
    licenses: set<string>, accessClasses: set<string>)

  datatype Report = Report(documentsFetched: nat, chunksNew: nat, chunksQuarantined: int, ingestionVersion: string)

  // ------------------------------------------------------------------ parsing and deduplication

  function ChunkAt(p: Setup, d: Document, texts: seq<string>, i: nat): Chunk
    requires i < |texts|
  {
    Chunk(p.documentHash(d.content), p.contentHash(texts[i]), i, texts[i], d.sourceUri, p.parserVersion, d.accessClass)
  }

  function Chunks(p: Setup, d: Document, texts: seq<string>, n: nat): (r: seq<Chunk>)
    requires n <= |texts|
    ensures |r| == n && forall i | 0 <= i < n :: r[i] == ChunkAt(p, d, texts, i)
  {
    if n == 0 then [] else Chunks(p, d, texts, n - 1) + [ChunkAt(p, d, texts, n - 1)]
  }

  function Parse(p: Setup, d: Document): Result<seq<Chunk>> {
    if d.contentType != "text/plain" then Err(UnsupportedType)
    else if p.pieces(d.content).Null? then Err(Undecodable)
    else Ok(Chunks(p, d, p.pieces(d.content).v, |p.pieces(d.content).v|))
  }

  function KeyOf(c: Chunk, version: string): Key { Key(c.contentHash, version) }

  /** The chunks not yet stored under `version`. */
  function Fresh(rows: map<Key, Row>, chunks: seq<Chunk>, version: string): seq<Chunk> {
    if chunks == [] then []
    else
      var c := chunks[|chunks| - 1];
      Fresh(rows, chunks[..|chunks| - 1], version) + (if KeyOf(c, version) in rows then [] else [c])
  }

  // ------------------------------------------------------------------ governance

  datatype Verdict = Gap | Clean | Violation(reason: Reason)

  function Judge(p: Setup, license: string, c: Chunk): Verdict {
    if c.documentHash == "" || c.contentHash == "" || c.text == "" || c.sourceUri == "" || c.parserVersion == ""
       || c.accessClass == "" || c.index < 0 then Gap
    else if license !in p.licenses then Violation(License(license))
    else if c.accessClass !in p.accessClasses then Violation(AccessClass(c.accessClass))
    else if p.pii(c.text) != {} then Violation(Pii(p.pii(c.text)))
    else Clean
  }

  function Quarantined(q: map<string, Rejected>, c: Chunk, reason: Reason): map<string, Rejected> {
    if c.contentHash in q then q else q[c.contentHash := Rejected(c, reason)]
  }

  datatype Screening = Screening(quarantine: map<string, Rejected>, valid: Result<seq<Chunk>>)

  /** Screens one chunk after the other; a metadata gap stops the run where it is found. */
  function Screen(p: Setup, byHash: map<string, Document>, q: map<string, Rejected>, chunks: seq<Chunk>): Screening {
    if chunks == [] then Screening(q, Ok([]))
    else
      var before := Screen(p, byHash, q, chunks[..|chunks| - 1]);
      var c := chunks[|chunks| - 1];
      if before.valid.Err? then before
      else if c.documentHash !in byHash then before.(valid := Err(UnknownDocument))
      else
        match Judge(p, byHash[c.documentHash].license, c)
        case Gap => before.(valid := Err(MetadataGap))
        case Clean => before.(valid := Ok(before.valid.value + [c]))
        case Violation(reason) => before.(quarantine := Quarantined(before.quarantine, c, reason))
  }

  // ------------------------------------------------------------------ writing

  function Insert(rows: map<Key, Row>, chunks: seq<Chunk>, version: string, stamp: string): map<Key, Row> {
    if chunks == [] then rows
    else
      var before := Insert(rows, chunks[..|chunks| - 1], version, stamp);
      var c := chunks[|chunks| - 1];
      if KeyOf(c, version) in before then before else before[KeyOf(c, version) := Row(c, stamp)]
  }

  function ContentHashes(chunks: seq<Chunk>): (r: seq<string>)
    ensures |r| == |chunks| && forall i | 0 <= i < |r| :: r[i] == chunks[i].contentHash
  {
    if chunks == [] then [] else ContentHashes(chunks[..|chunks| - 1]) + [chunks[|chunks| - 1].contentHash]
  }

  function DocumentHashes(chunks: seq<Chunk>): set<string> { set c | c in chunks :: c.documentHash }

  function IngestionVersion(p: Setup, chunks: seq<Chunk>): (s: string)
    ensures s != ""
  {
    p.date + "-" + p.digest(multiset(ContentHashes(chunks)), p.version)
  }

  /** Parents not registered yet, as the run knows them. */
  function WithParents(
      documents: map<string, Document>, byHash: map<string, Document>, hashes: set<string>): map<string, Document>
    requires hashes <= byHash.Keys
  {
    (map h | h in hashes :: byHash[h]) + documents
  }

  predicate Known(byHash: map<string, Document>, chunks: seq<Chunk>) {
    forall i | 0 <= i < |chunks| :: chunks[i].documentHash in byHash
  }

  datatype Written = Written(store: Store, version: Result<string>)

  /** `embeds` tells whether the embedding backend delivers its vectors; the parents are committed
      before it is asked. */
  function Write(
      p: Setup, byHash: map<string, Document>, s: Store, chunks: seq<Chunk>, version: string, embeds: bool): Written
    requires Known(byHash, chunks)
  {
    if chunks == [] then Written(s, Ok(""))
    else if version != p.version then Written(s, Err(VersionMismatch))
    else
      var registered := s.(documents := WithParents(s.documents, byHash, DocumentHashes(chunks)));
      if !embeds then Written(registered, Err(EmbeddingFailed))
      else
        var stamp := IngestionVersion(p, chunks);
        var rows := Insert(s.chunks, chunks, version, stamp);
        Written(registered.(chunks := rows), Ok(if |rows| > |s.chunks| then stamp else ""))
  }

  // ------------------------------------------------------------------ one run

  datatype Run = Run(store: Store, report: Result<Report>)

  lemma {:induction false} ScreenedAreKnown(
      p: Setup, byHash: map<string, Document>, q: map<string, Rejected>, chunks: seq<Chunk>)
    requires Screen(p, byHash, q, chunks).valid.Ok?
    ensures Known(byHash, chunks) && Known(byHash, Screen(p, byHash, q, chunks).valid.value)
  {
    if chunks != [] { ScreenedAreKnown(p, byHash, q, chunks[..|chunks| - 1]); }
  }

  /** What follows deduplication. */
  function Load(p: Setup, byHash: map<string, Document>, s: Store, unseen: seq<Chunk>, embeds: bool): Run {
    var screened := Screen(p, byHash, s.quarantine, unseen);
    var after := s.(quarantine := screened.quarantine);
    if screened.valid.Err? then Run(after, Err(screened.valid.failure))
    else
      ScreenedAreKnown(p, byHash, s.quarantine, unseen);
      var valid := screened.valid.value;
      var written := Write(p, byHash, after, valid, p.version, embeds);
      if written.version.Err? then Run(written.store, Err(written.version.failure))
      else Run(written.store, Ok(ReportOf(unseen, valid, written.version.value)))
  }

  function ReportOf(unseen: seq<Chunk>, valid: seq<Chunk>, ingestionVersion: string): Report {
    Report(1, if ingestionVersion != "" then |valid| else 0, |unseen| - |valid|, ingestionVersion)
  }

  /** Ingestion of one document by a pipeline that may already know others. */
  function Ingest(p: Setup, byHash: map<string, Document>, s: Store, d: Document, embeds: bool): Run {
    var parsed := Parse(p, d);
    if parsed.Err? then Run(s, Err(parsed.failure))
    else Load(p, byHash[p.documentHash(d.content) := d], s, Fresh(s.chunks, parsed.value, p.version), embeds)
  }

  predicate HasParents(s: Store) {
    forall k | k in s.chunks :: s.chunks[k].chunk.documentHash in s.documents
  }

  // ------------------------------------------------------------------ the store object

  class PgVectorStore {
    var documents: map<string, Document>
    var chunks: map<Key, Row>
    var quarantine: map<string, Rejected>

    function View(): Store reads this { Store(documents, chunks, quarantine) }

    ghost predicate Valid() reads this { HasParents(View()) }

    constructor ()
      ensures Valid() && View() == Store(map[], map[], map[])
    {
      documents, chunks, quarantine := map[], map[], map[];
    }

    method UpsertDocument(d: Document, hash: string)
      requires Valid()
      modifies `documents
      ensures Valid() && documents == if hash in old(documents) then old(documents) else old(documents)[hash := d]
    {
      if hash !in documents { documents := documents[hash := d]; }
    }

    method ContentHashExists(contentHash: string, version: string) returns (found: bool)
      ensures found <==> Key(contentHash, version) in chunks
    {
      found := Key(contentHash, version) in chunks;
    }

    /** The foreign key on the parent document is what callers must already satisfy. */
    method InsertChunks(batch: seq<Chunk>, version: string, stamp: string) returns (inserted: nat)
      requires Valid() && forall i | 0 <= i < |batch| :: batch[i].documentHash in documents
      modifies `chunks
      ensures Valid() && chunks == Insert(old(chunks), batch, version, stamp)
      ensures inserted == |chunks| - |old(chunks)|
    {
      inserted := 0;
      for i := 0 to |batch|
        invariant Valid() && chunks == Insert(old(chunks), batch[..i], version, stamp)
        invariant inserted == |chunks| - |old(chunks)|
      {
        assert batch[..i + 1][..i] == batch[..i];
        var key := KeyOf(batch[i], version);
        if key !in chunks {
          chunks := chunks[key := Row(batch[i], stamp)];
          inserted := inserted + 1;
        }
      }
      assert batch[..|batch|] == batch;
    }

    method InsertQuarantine(c: Chunk, reason: Reason)
      requires Valid()
      modifies `quarantine
      ensures Valid() && quarantine == Quarantined(old(quarantine), c, reason)
    {
      if c.contentHash !in quarantine { quarantine := quarantine[c.contentHash := Rejected(c, reason)]; }
    }
  }

  // ------------------------------------------------------------------ the pipeline object

  class RagIngestionPipeline {
    const store: PgVectorStore
    const setup: Setup
    const sources: map<string, Document>
    var documentByHash: map<string, Document>

    constructor (store: PgVectorStore, setup: Setup, sources: map<string, Document>)
      ensures this.store == store && this.setup == setup && this.sources == sources && documentByHash == map[]
    {
      this.store, this.setup, this.sources, documentByHash := store, setup, sources, map[];
    }

    method FetchDocuments(source: string) returns (r: Result<seq<Document>>)
      ensures r == if source in sources then Ok([sources[source]]) else Err(UnknownSource)
    {
      if source !in sources { return Err(UnknownSource); }
      return Ok([sources[source]]);
    }

    /** Parses one document; the source's outer loop sees one document per run. */
    method ParseAndChunk(d: Document) returns (r: Result<seq<Chunk>>)
      modifies `documentByHash
      ensures r == Parse(setup, d)
      ensures documentByHash
           == if d.contentType == "text/plain" then old(documentByHash)[setup.documentHash(d.content) := d]
                                                    else old(documentByHash)
    {
      if d.contentType != "text/plain" { return Err(UnsupportedType); }
      documentByHash := documentByHash[setup.documentHash(d.content) := d];
      var pieces := setup.pieces(d.content);
      if pieces.Null? { return Err(Undecodable); }
      var chunks: seq<Chunk> := [];
      for i := 0 to |pieces.v|
        invariant chunks == Chunks(setup, d, pieces.v, i)
      {
        chunks := chunks + [ChunkAt(setup, d, pieces.v, i)];
      }
      return Ok(chunks);
    }

    method DeduplicateChunks(chunks: seq<Chunk>) returns (r: seq<Chunk>)
      ensures r == Fresh(store.chunks, chunks, setup.version)
    {
      r := [];
      for i := 0 to |chunks|
        invariant r == Fresh(store.chunks, chunks[..i], setup.version)
      {
        assert chunks[..i + 1][..i] == chunks[..i];
        var found := store.ContentHashExists(chunks[i].contentHash, setup.version);
        if !found { r := r + [chunks[i]]; }
      }
      assert chunks[..|chunks|] == chunks;
    }

    method EnforceLicensingAndMetadata(chunks: seq<Chunk>) returns (r: Result<seq<Chunk>>)
      requires store.Valid()
      modifies store`quarantine
      ensures store.Valid()
      ensures Screening(store.quarantine, r) == Screen(setup, documentByHash, old(store.quarantine), chunks)
    {
      var valid: seq<Chunk> := [];
      for i := 0 to |chunks|
        invariant store.Valid()
        invariant Screening(store.quarantine, Ok(valid))
                  == Screen(setup, documentByHash, old(store.quarantine), chunks[..i])
      {
        var c := chunks[i];
        ScreenStops(setup, documentByHash, old(store.quarantine), chunks, i);
        if c.documentHash !in documentByHash { return Err(UnknownDocument); }
        match Judge(setup, documentByHash[c.documentHash].license, c)
        case Gap => return Err(MetadataGap);
        case Clean => valid := valid + [c];
        case Violation(reason) => store.InsertQuarantine(c, reason);
      }
      assert chunks[..|chunks|] == chunks;
      return Ok(valid);
    }

    method WriteVectors(chunks: seq<Chunk>, version: string, embeds: bool) returns (r: Result<string>)
      requires store.Valid() && Known(documentByHash, chunks)
      modifies store`documents, store`chunks
      ensures store.Valid()
      ensures Written(store.View(), r) == Write(setup, documentByHash, old(store.View()), chunks, version, embeds)
    {
      if chunks == [] { return Ok(""); }
      if version != setup.version { return Err(VersionMismatch); }
      RegisterParents(DocumentHashes(chunks));
      if !embeds { return Err(EmbeddingFailed); }
      var stamp := IngestionVersion(setup, chunks);
      var inserted := store.InsertChunks(chunks, version, stamp);
      return Ok(if inserted > 0 then stamp else "");
    }

    /** The loop over the set of parent hashes, in whatever order. */
    method RegisterParents(hashes: set<string>)
      requires store.Valid() && hashes <= documentByHash.Keys
      modifies store`documents
      ensures store.Valid()
      ensures store.documents == WithParents(old(store.documents), documentByHash, hashes)
    {
      var left := hashes;
      while left != {}
        invariant left <= hashes && store.Valid()
        invariant store.documents == WithParents(old(store.documents), documentByHash, hashes - left)
      {
        var h :| h in left;
        store.UpsertDocument(documentByHash[h], h);
        left := left - {h};
      }
      assert hashes - {} == hashes;
    }

    method LoadChunks(unseen: seq<Chunk>, embeds: bool) returns (r: Result<Report>)
      requires store.Valid()
      modifies store
      ensures store.Valid()
      ensures Run(store.View(), r) == Load(setup, documentByHash, old(store.View()), unseen, embeds)
    {
      var valid := EnforceLicensingAndMetadata(unseen);
      if valid.Err? { return Err(valid.failure); }
      ScreenedAreKnown(setup, documentByHash, old(store.quarantine), unseen);
      var version := WriteVectors(valid.value, setup.version, embeds);
      if version.Err? { return Err(version.failure); }
      return Ok(ReportOf(unseen, valid.value, version.value));
    }
  }

  lemma {:induction false} ScreenStops(
      p: Setup, byHash: map<string, Document>, q: map<string, Rejected>, chunks: seq<Chunk>, i: nat)
    requires i < |chunks|
    ensures chunks[..i + 1][..i] == chunks[..i]
    ensures Screen(p, byHash, q, chunks[..i + 1]).valid.Err? ==>
              Screen(p, byHash, q, chunks) == Screen(p, byHash, q, chunks[..i + 1])
    decreases |chunks|
  {
    assert chunks[..i + 1][..i] == chunks[..i];
    if i + 1 < |chunks| {
      var shorter := chunks[..|chunks| - 1];
      assert shorter[..i + 1] == chunks[..i + 1];
      ScreenStops(p, byHash, q, shorter, i);
    } else {
      assert chunks[..i + 1] == chunks;
    }
  }

  method RunIngestion(pipeline: RagIngestionPipeline, source: string, embeds: bool) returns (r: Result<Report>)
    requires pipeline.store.Valid()
    modifies pipeline`documentByHash, pipeline.store
    ensures pipeline.store.Valid()
    ensures source !in pipeline.sources ==>
              r == Err(UnknownSource) && pipeline.store.View() == old(pipeline.store.View())
    ensures source in pipeline.sources ==>
      Ingest(pipeline.setup, old(pipeline.documentByHash), old(pipeline.store.View()), pipeline.sources[source], embeds)
      == Run(pipeline.store.View(), r)
  {
    var fetched := pipeline.FetchDocuments(source);
    if fetched.Err? { return Err(fetched.failure); }
    var parsed := pipeline.ParseAndChunk(fetched.value[0]);
    if parsed.Err? { return Err(parsed.failure); }
    var unseen := pipeline.DeduplicateChunks(parsed.value);
    r := pipeline.LoadChunks(unseen, embeds);
  }

  // ------------------------------------------------------------------ what each stage does

  lemma {:induction false} FreshIff(rows: map<Key, Row>, chunks: seq<Chunk>, version: string, c: Chunk)
    ensures c in Fresh(rows, chunks, version) <==> c in chunks && KeyOf(c, version) !in rows
  {
    if chunks != [] {
      FreshIff(rows, chunks[..|chunks| - 1], version, c);
      assert chunks == chunks[..|chunks| - 1] + [chunks[|chunks| - 1]];
    }
  }

  /** The verdict a run reaches on a chunk. */
  function VerdictIn(p: Setup, byHash: map<string, Document>, c: Chunk): Verdict {
    if c.documentHash in byHash then Judge(p, byHash[c.documentHash].license, c) else Gap
  }

  /** A finished screening kept exactly the clean chunks and quarantined exactly the others; nothing
      leaves quarantine. */
  lemma {:induction false} ScreenMeaning(
      p: Setup, byHash: map<string, Document>, q: map<string, Rejected>, chunks: seq<Chunk>, c: Chunk)
    requires Screen(p, byHash, q, chunks).valid.Ok?
    ensures var screened := Screen(p, byHash, q, chunks);
      && (c in screened.valid.value <==> c in chunks && VerdictIn(p, byHash, c).Clean?)
      && (c in chunks ==> !VerdictIn(p, byHash, c).Gap?)
      && (c in chunks && VerdictIn(p, byHash, c).Violation? ==> c.contentHash in screened.quarantine)
  {
    if chunks != [] {
      var rest, last := chunks[..|chunks| - 1], chunks[|chunks| - 1];
      ScreenMeaning(p, byHash, q, rest, c);
      assert chunks == rest + [last];
    }
  }

  lemma {:induction false} QuarantineGrows(
      p: Setup, byHash: map<string, Document>, q: map<string, Rejected>, chunks: seq<Chunk>, h: string)
    ensures var after := Screen(p, byHash, q, chunks).quarantine;
      && (h in q ==> h in after && after[h] == q[h])
      && (h in after && h !in q ==>
            exists c | c in chunks :: c.contentHash == h && VerdictIn(p, byHash, c).Violation?)
  {
    if chunks != [] {
      var rest, last := chunks[..|chunks| - 1], chunks[|chunks| - 1];
      QuarantineGrows(p, byHash, q, rest, h);
      assert chunks == rest + [last];
      assert forall c | c in rest :: c in chunks;
      assert last in chunks;
    }
  }

  lemma {:induction false} InsertMeaning(rows: map<Key, Row>, chunks: seq<Chunk>, version: string, stamp: string,
      k: Key)
    ensures var after := Insert(rows, chunks, version, stamp);
      && (k in after <==> k in rows || exists c | c in chunks :: KeyOf(c, version) == k)
      && (k in rows ==> after[k] == rows[k])
      && (k in after && k !in rows ==>
            after[k].chunk in chunks && KeyOf(after[k].chunk, version) == k && after[k].ingestionVersion == stamp)
  {
    if chunks != [] {
      var rest, last := chunks[..|chunks| - 1], chunks[|chunks| - 1];
      InsertMeaning(rows, rest, version, stamp, k);
      assert chunks == rest + [last];
      assert forall c | c in rest :: c in chunks;
      assert last in chunks;
    }
  }

  ghost function HashSet(chunks: seq<Chunk>): set<string> { set h | h in ContentHashes(chunks) }

  lemma {:induction false} HashSetStep(chunks: seq<Chunk>)
    requires chunks != []
    ensures HashSet(chunks) == HashSet(chunks[..|chunks| - 1]) + {chunks[|chunks| - 1].contentHash}
  {
    assert ContentHashes(chunks) == ContentHashes(chunks[..|chunks| - 1]) + [chunks[|chunks| - 1].contentHash];
  }

  lemma {:induction false} InHashSet(chunks: seq<Chunk>, version: string, h: string)
    ensures h in HashSet(chunks) <==> exists c | c in chunks :: KeyOf(c, version) == Key(h, version)
  {
    if h in HashSet(chunks) {
      var i :| 0 <= i < |chunks| && ContentHashes(chunks)[i] == h;
      assert chunks[i] in chunks && KeyOf(chunks[i], version) == Key(h, version);
    }
    if c :| c in chunks && KeyOf(c, version) == Key(h, version) {
      var i :| 0 <= i < |chunks| && chunks[i] == c;
      assert ContentHashes(chunks)[i] == h;
    }
  }

  lemma {:induction false} HeldIff(rows: map<Key, Row>, chunks: seq<Chunk>, version: string, stamp: string, h: string)
    requires Key(h, version) !in rows
    ensures Key(h, version) in Insert(rows, chunks, version, stamp) <==> h in HashSet(chunks)
  {
    InsertMeaning(rows, chunks, version, stamp, Key(h, version));
    InHashSet(chunks, version, h);
  }

  lemma {:induction false} InsertCount(rows: map<Key, Row>, chunks: seq<Chunk>, version: string, stamp: string)
    requires forall i | 0 <= i < |chunks| :: KeyOf(chunks[i], version) !in rows
    ensures |Insert(rows, chunks, version, stamp)| == |rows| + |HashSet(chunks)|
  {
    if chunks == [] {
      assert HashSet(chunks) == {};
    } else {
      var rest, last := chunks[..|chunks| - 1], chunks[|chunks| - 1];
      InsertCount(rows, rest, version, stamp);
      HashSetStep(chunks);
      HeldIff(rows, rest, version, stamp, last.contentHash);
    }
  }

  // ------------------------------------------------------------------ whole runs

  /** What screening let through is not stored yet, so writing it adds one row per distinct content hash. */
  lemma {:induction false} RowsAdded(p: Setup, byHash: map<string, Document>, s: Store, chunks: seq<Chunk>)
    requires Screen(p, byHash, s.quarantine, Fresh(s.chunks, chunks, p.version)).valid.Ok?
    ensures var valid := Screen(p, byHash, s.quarantine, Fresh(s.chunks, chunks, p.version)).valid.value;
      var rows := Insert(s.chunks, valid, p.version, IngestionVersion(p, valid));
      && |rows| == |s.chunks| + |HashSet(valid)|
      && (|rows| > |s.chunks| <==> valid != [])
  {
    var unseen := Fresh(s.chunks, chunks, p.version);
    var valid := Screen(p, byHash, s.quarantine, unseen).valid.value;
    forall c | c in valid ensures KeyOf(c, p.version) !in s.chunks {
      ScreenMeaning(p, byHash, s.quarantine, unseen, c);
      FreshIff(s.chunks, chunks, p.version, c);
    }
    InsertCount(s.chunks, valid, p.version, IngestionVersion(p, valid));
    if valid != [] {
      assert ContentHashes(valid)[0] in HashSet(valid);
    } else {
      assert HashSet(valid) == {};
    }
  }

  function KnownAfter(p: Setup, byHash: map<string, Document>, d: Document): map<string, Document> {
    byHash[p.documentHash(d.content) := d]
  }

  function Unseen(p: Setup, s: Store, d: Document): seq<Chunk>
    requires Parse(p, d).Ok?
  {
    Fresh(s.chunks, Parse(p, d).value, p.version)
  }

  /** Where each chunk of a finished run ends up. */
  lemma {:induction false} ChunkOutcome(p: Setup, byHash: map<string, Document>, s: Store, d: Document, c: Chunk,
      embeds: bool)
    requires Ingest(p, byHash, s, d, embeds).report.Ok? && c in Parse(p, d).value
    ensures var after, verdict := Ingest(p, byHash, s, d, embeds).store, VerdictIn(p, KnownAfter(p, byHash, d), c);
      && (KeyOf(c, p.version) !in s.chunks ==> verdict.Clean? || verdict.Violation?)
      && (KeyOf(c, p.version) !in s.chunks && verdict.Clean? ==> KeyOf(c, p.version) in after.chunks)
      && (KeyOf(c, p.version) !in s.chunks && verdict.Violation? ==> c.contentHash in after.quarantine)
  {
    var unseen, known := Unseen(p, s, d), KnownAfter(p, byHash, d);
    FreshIff(s.chunks, Parse(p, d).value, p.version, c);
    ScreenMeaning(p, known, s.quarantine, unseen, c);
    var valid := Screen(p, known, s.quarantine, unseen).valid.value;
    InsertMeaning(s.chunks, valid, p.version, IngestionVersion(p, valid), KeyOf(c, p.version));
  }

  lemma {:induction false} LoadedRows(p: Setup, known: map<string, Document>, s: Store, chunks: seq<Chunk>, k: Key,
      embeds: bool)
    ensures var run := Load(p, known, s, Fresh(s.chunks, chunks, p.version), embeds);
      && (k in s.chunks ==> k in run.store.chunks && run.store.chunks[k] == s.chunks[k])
      && (k in run.store.chunks && k !in s.chunks ==>
            && run.report.Ok?
            && var row := run.store.chunks[k];
               row.chunk in chunks && KeyOf(row.chunk, p.version) == k && VerdictIn(p, known, row.chunk).Clean?
               && row.ingestionVersion == run.report.value.ingestionVersion)
  {
    var unseen := Fresh(s.chunks, chunks, p.version);
    var screened := Screen(p, known, s.quarantine, unseen);
    if screened.valid.Ok? {
      var valid := screened.valid.value;
      var stamp := IngestionVersion(p, valid);
      var rows := Insert(s.chunks, valid, p.version, stamp);
      InsertMeaning(s.chunks, valid, p.version, stamp, k);
      RowsAdded(p, known, s, chunks);
      if k in rows && k !in s.chunks {
        ScreenMeaning(p, known, s.quarantine, unseen, rows[k].chunk);
        FreshIff(s.chunks, chunks, p.version, rows[k].chunk);
      }
    }
  }

  /** Rows are only added, never rewritten, and every new row holds a clean, previously unstored chunk of
      this document under the run's embedding version and ingestion version. */
  lemma {:induction false} NewRowsAreClean(p: Setup, byHash: map<string, Document>, s: Store, d: Document, k: Key,
      embeds: bool)
    ensures var run := Ingest(p, byHash, s, d, embeds);
      && (k in s.chunks ==> k in run.store.chunks && run.store.chunks[k] == s.chunks[k])
      && (k in run.store.chunks && k !in s.chunks ==>
            && run.report.Ok? && Parse(p, d).Ok?
            && var row := run.store.chunks[k];
               row.chunk in Parse(p, d).value && KeyOf(row.chunk, p.version) == k
               && VerdictIn(p, KnownAfter(p, byHash, d), row.chunk).Clean?
               && row.ingestionVersion == run.report.value.ingestionVersion)
  {
    if Parse(p, d).Ok? { LoadedRows(p, KnownAfter(p, byHash, d), s, Parse(p, d).value, k, embeds); }
  }

  /** The same run on another day: only the stamp of new rows changes. */
  function OnDay(p: Setup, day: string): Setup { p.(date := day) }

  lemma {:induction false} ChunksIgnoreDay(p: Setup, day: string, d: Document, texts: seq<string>, n: nat)
    requires n <= |texts|
    ensures Chunks(OnDay(p, day), d, texts, n) == Chunks(p, d, texts, n)
  {
    if n > 0 { ChunksIgnoreDay(p, day, d, texts, n - 1); }
  }

  lemma {:induction false} ParseIgnoresDay(p: Setup, day: string, d: Document)
    ensures Parse(OnDay(p, day), d) == Parse(p, d)
  {
    if p.pieces(d.content).Val? { ChunksIgnoreDay(p, day, d, p.pieces(d.content).v, |p.pieces(d.content).v|); }
  }

  lemma {:induction false} OfDocument(p: Setup, d: Document, c: Chunk)
    requires Parse(p, d).Ok? && c in Parse(p, d).value
    ensures c.documentHash == p.documentHash(d.content)
    ensures forall byHash :: VerdictIn(p, KnownAfter(p, byHash, d), c) == Judge(p, d.license, c)
  {
    var i :| 0 <= i < |Parse(p, d).value| && Parse(p, d).value[i] == c;
  }

  /** A chunk of the document that has no row after a finished run, or ever later, is one the policy rejects. */
  lemma {:induction false} RowlessIsRejected(
      p: Setup, byHash: map<string, Document>, s: Store, later: Store, d: Document, embeds: bool, c: Chunk)
    requires Ingest(p, byHash, s, d, embeds).report.Ok?
    requires forall k | k in Ingest(p, byHash, s, d, embeds).store.chunks :: k in later.chunks
    requires Parse(p, d).Ok? && c in Unseen(p, later, d)
    ensures c.documentHash == p.documentHash(d.content) && Judge(p, d.license, c).Violation?
    ensures c.contentHash in Ingest(p, byHash, s, d, embeds).store.quarantine
  {
    FreshIff(later.chunks, Parse(p, d).value, p.version, c);
    NewRowsAreClean(p, byHash, s, d, KeyOf(c, p.version), embeds);
    OfDocument(p, d, c);
    ChunkOutcome(p, byHash, s, d, c, embeds);
  }

  /** Once a run has finished, running the same source again under the same embedding version, on whatever
      day and against any store that still has its rows, writes nothing and reports the empty version. */
  lemma {:induction false} RerunWritesNothing(
      p: Setup, first: map<string, Document>, second: map<string, Document>, s: Store, later: Store, d: Document,
      embeds: bool, embedsAgain: bool, day: string)
    requires Ingest(p, first, s, d, embeds).report.Ok?
    requires forall k | k in Ingest(p, first, s, d, embeds).store.chunks :: k in later.chunks
    ensures var again := Ingest(OnDay(p, day), second, later, d, embedsAgain);
      && again.store.chunks == later.chunks && again.store.documents == later.documents
      && again.report.Ok? && again.report.value.ingestionVersion == "" && again.report.value.chunksNew == 0
  {
    var q := OnDay(p, day);
    ParseIgnoresDay(p, day, d);
    var known := KnownAfter(q, second, d);
    var unseen := Unseen(q, later, d);
    forall c | c in unseen ensures c.documentHash in known && VerdictIn(q, known, c).Violation? {
      RowlessIsRejected(p, first, s, later, d, embeds, c);
    }
    AllQuarantined(q, known, later.quarantine, unseen);
  }

  lemma {:induction false} AllQuarantined(
      p: Setup, byHash: map<string, Document>, q: map<string, Rejected>, chunks: seq<Chunk>)
    requires forall c | c in chunks :: c.documentHash in byHash && VerdictIn(p, byHash, c).Violation?
    ensures Screen(p, byHash, q, chunks).valid == Ok([])
    ensures (forall c | c in chunks :: c.contentHash in q) ==> Screen(p, byHash, q, chunks).quarantine == q
  {
    if chunks != [] {
      var rest, last := chunks[..|chunks| - 1], chunks[|chunks| - 1];
      assert last in chunks && forall c | c in rest :: c in chunks;
      AllQuarantined(p, byHash, q, rest);
    }
  }

  /** Repeating a finished run at once, even past midnight, changes nothing at all, quarantine included. */
  lemma {:induction false} RerunIsIdle(
      p: Setup, byHash: map<string, Document>, s: Store, d: Document, embeds: bool, embedsAgain: bool, day: string)
    requires Ingest(p, byHash, s, d, embeds).report.Ok?
    ensures var after := Ingest(p, byHash, s, d, embeds).store;
      Ingest(OnDay(p, day), KnownAfter(p, byHash, d), after, d, embedsAgain).store == after
  {
    var q, after, known := OnDay(p, day), Ingest(p, byHash, s, d, embeds).store, KnownAfter(p, byHash, d);
    ParseIgnoresDay(p, day, d);
    assert KnownAfter(q, known, d) == known;
    var unseen := Unseen(q, after, d);
    forall c | c in unseen
      ensures c.documentHash in known && VerdictIn(q, known, c).Violation? && c.contentHash in after.quarantine
    {
      RowlessIsRejected(p, byHash, s, after, d, embeds, c);
    }
    AllQuarantined(q, known, after.quarantine, unseen);
  }

  /** `chunks_new` counts the chunks sent to the store, so it is the number of rows added exactly when
      no two of them share a content hash: repeated text within one document is over-counted. */
  lemma {:induction false} ChunksNewIff(p: Setup, byHash: map<string, Document>, s: Store, d: Document, embeds: bool)
    requires Ingest(p, byHash, s, d, embeds).report.Ok?
    ensures var run := Ingest(p, byHash, s, d, embeds);
      var valid := Screen(p, KnownAfter(p, byHash, d), s.quarantine, Unseen(p, s, d)).valid.value;
      && run.report.value.chunksNew == |valid|
      && |run.store.chunks| - |s.chunks| <= run.report.value.chunksNew
      && (run.report.value.chunksNew == |run.store.chunks| - |s.chunks| <==> NoRepeat(ContentHashes(valid)))
  {
    var known := KnownAfter(p, byHash, d);
    var valid := Screen(p, known, s.quarantine, Unseen(p, s, d)).valid.value;
    RowsAdded(p, known, s, Parse(p, d).value);
    DistinctCount(ContentHashes(valid));
    assert HashSet(valid) == set h | h in ContentHashes(valid);
  }

  lemma {:induction false} WriteKeepsParents(
      p: Setup, known: map<string, Document>, s: Store, chunks: seq<Chunk>, version: string, embeds: bool)
    requires HasParents(s) && Known(known, chunks)
    ensures HasParents(Write(p, known, s, chunks, version, embeds).store)
  {
    var after := Write(p, known, s, chunks, version, embeds).store;
    forall k | k in after.chunks ensures after.chunks[k].chunk.documentHash in after.documents {
      InsertMeaning(s.chunks, chunks, version, IngestionVersion(p, chunks), k);
    }
  }

  /** Every stored chunk keeps its parent document, whether the run finishes or raises. */
  lemma {:induction false} IngestKeepsParents(
      p: Setup, byHash: map<string, Document>, s: Store, d: Document, embeds: bool)
    requires HasParents(s)
    ensures HasParents(Ingest(p, byHash, s, d, embeds).store)
  {
    if Parse(p, d).Ok? {
      var unseen, known := Unseen(p, s, d), KnownAfter(p, byHash, d);
      var screened := Screen(p, known, s.quarantine, unseen);
      if screened.valid.Ok? {
        ScreenedAreKnown(p, known, s.quarantine, unseen);
        WriteKeepsParents(p, known, s.(quarantine := screened.quarantine), screened.valid.value, p.version, embeds);
      }
    }
  }

  // ------------------------------------------------------------------ stored or quarantined

  /** The content hash tells the texts of these chunks apart. */
  predicate TellsApart(chunks: seq<Chunk>) {
    forall i, j | 0 <= i < j < |chunks| :: chunks[i].contentHash == chunks[j].contentHash ==>
                chunks[i].text == chunks[j].text
  }

  lemma {:induction false} SameHashSameVerdict(p: Setup, byHash: map<string, Document>, d: Document, c: Chunk, e: Chunk)
    requires Parse(p, d).Ok? && TellsApart(Parse(p, d).value) && c in Parse(p, d).value && e in Parse(p, d).value
    requires c.contentHash == e.contentHash
    ensures VerdictIn(p, KnownAfter(p, byHash, d), c) == VerdictIn(p, KnownAfter(p, byHash, d), e)
  {
    var chunks := Parse(p, d).value;
    var i :| 0 <= i < |chunks| && chunks[i] == c;
    var j :| 0 <= j < |chunks| && chunks[j] == e;
    assert c.text == e.text;
  }

  /** A chunk is written or quarantined, never both: no content hash gains a row and a quarantine record
      in one run. */
  lemma {:induction false} NeverBoth(
      p: Setup, byHash: map<string, Document>, s: Store, d: Document, embeds: bool, h: string)
    requires Parse(p, d).Ok? ==> TellsApart(Parse(p, d).value)
    ensures var after := Ingest(p, byHash, s, d, embeds).store;
      !(Key(h, p.version) in after.chunks && Key(h, p.version) !in s.chunks && h in after.quarantine
        && h !in s.quarantine)
  {
    if Parse(p, d).Ok? {
      var chunks, known, unseen := Parse(p, d).value, KnownAfter(p, byHash, d), Unseen(p, s, d);
      var after := Ingest(p, byHash, s, d, embeds).store;
      NewRowsAreClean(p, byHash, s, d, Key(h, p.version), embeds);
      QuarantineGrows(p, known, s.quarantine, unseen, h);
      if Key(h, p.version) in after.chunks && Key(h, p.version) !in s.chunks {
        var c := after.chunks[Key(h, p.version)].chunk;
        forall e | e in unseen && e.contentHash == h ensures !VerdictIn(p, known, e).Violation? {
          FreshIff(s.chunks, chunks, p.version, e);
          SameHashSameVerdict(p, byHash, d, c, e);
        }
      }
    }
  }

  // ------------------------------------------------------------------ runs that raise

  /** What a run would write if the backend delivers: the clean chunks not stored yet. */
  function ToWrite(p: Setup, byHash: map<string, Document>, s: Store, d: Document): Result<seq<Chunk>> {
    if Parse(p, d).Err? then Err(Parse(p, d).failure)
    else Screen(p, KnownAfter(p, byHash, d), s.quarantine, Unseen(p, s, d)).valid
  }

  lemma {:induction false} OneParent(p: Setup, byHash: map<string, Document>, s: Store, d: Document)
    requires ToWrite(p, byHash, s, d).Ok?
    ensures var valid := ToWrite(p, byHash, s, d).value;
      DocumentHashes(valid) == if valid == [] then {} else {p.documentHash(d.content)}
  {
    var chunks, valid := Parse(p, d).value, ToWrite(p, byHash, s, d).value;
    forall c | c in valid ensures c.documentHash == p.documentHash(d.content) {
      ScreenMeaning(p, KnownAfter(p, byHash, d), s.quarantine, Unseen(p, s, d), c);
      FreshIff(s.chunks, chunks, p.version, c);
      var i :| 0 <= i < |chunks| && chunks[i] == c;
    }
    if valid != [] { assert valid[0] in valid; }
  }

  lemma {:induction false} ParentAdded(documents: map<string, Document>, known: map<string, Document>, h: string)
    requires h in known
    ensures WithParents(documents, known, {h}) == if h in documents then documents else documents[h := known[h]]
  {
  }

  lemma {:induction false} ScreenFailures(
      p: Setup, byHash: map<string, Document>, q: map<string, Rejected>, chunks: seq<Chunk>)
    ensures Screen(p, byHash, q, chunks).valid.Err? ==>
              Screen(p, byHash, q, chunks).valid.failure in {UnknownDocument, MetadataGap}
  {
    if chunks != [] { ScreenFailures(p, byHash, q, chunks[..|chunks| - 1]); }
  }

  /** A run that raised stored no chunk and unmade no quarantine record. It added a document exactly when
      the backend failed on a batch whose parent was not registered, and then only that parent. */
  lemma {:induction false} FailureAddsNoChunk(
      p: Setup, byHash: map<string, Document>, s: Store, d: Document, embeds: bool, h: string)
    requires Ingest(p, byHash, s, d, embeds).report.Err?
    ensures var run, parent := Ingest(p, byHash, s, d, embeds), p.documentHash(d.content);
      && run.store.chunks == s.chunks
      && (h in s.quarantine ==> h in run.store.quarantine && run.store.quarantine[h] == s.quarantine[h])
      && run.store.documents
         == (if run.report.failure == EmbeddingFailed && parent !in s.documents then s.documents[parent := d]
                   else s.documents)
  {
    if Parse(p, d).Ok? {
      QuarantineGrows(p, KnownAfter(p, byHash, d), s.quarantine, Unseen(p, s, d), h);
      ScreenFailures(p, KnownAfter(p, byHash, d), s.quarantine, Unseen(p, s, d));
      if ToWrite(p, byHash, s, d).Ok? {
        OneParent(p, byHash, s, d);
        ParentAdded(s.documents, KnownAfter(p, byHash, d), p.documentHash(d.content));
      }
    }
  }

  /** The backend decides only when something is to be written: its failure shows exactly in the runs
      that would have stored a chunk, and in all others it makes no difference. */
  lemma {:induction false} EmbeddingFailsIff(p: Setup, byHash: map<string, Document>, s: Store, d: Document)
    ensures var broken, working := Ingest(p, byHash, s, d, false), Ingest(p, byHash, s, d, true);
      && (broken.report == Err(EmbeddingFailed) <==> working.report.Ok? && working.report.value.chunksNew > 0)
      && (broken.report != Err(EmbeddingFailed) ==> broken == working)
  {
    if Parse(p, d).Ok? { LoadFailsIff(p, KnownAfter(p, byHash, d), s, Parse(p, d).value); }
  }

  lemma {:induction false} LoadFailsIff(p: Setup, known: map<string, Document>, s: Store, chunks: seq<Chunk>)
    ensures var unseen := Fresh(s.chunks, chunks, p.version);
      var broken, working := Load(p, known, s, unseen, false), Load(p, known, s, unseen, true);
      && (broken.report == Err(EmbeddingFailed) <==> working.report.Ok? && working.report.value.chunksNew > 0)
      && (broken.report != Err(EmbeddingFailed) ==> broken == working)
  {
    var unseen := Fresh(s.chunks, chunks, p.version);
    ScreenFailures(p, known, s.quarantine, unseen);
    if Screen(p, known, s.quarantine, unseen).valid.Ok? { RowsAdded(p, known, s, chunks); }
  }

  lemma {:induction false} ValidIgnoresQuarantine(
      p: Setup, byHash: map<string, Document>, q: map<string, Rejected>, r: map<string, Rejected>, chunks: seq<Chunk>)
    ensures Screen(p, byHash, q, chunks).valid == Screen(p, byHash, r, chunks).valid
  {
    if chunks != [] { ValidIgnoresQuarantine(p, byHash, q, r, chunks[..|chunks| - 1]); }
  }

  lemma {:induction false} ScreenAgain(
      p: Setup, byHash: map<string, Document>, q: map<string, Rejected>, chunks: seq<Chunk>)
    requires forall c | c in chunks && VerdictIn(p, byHash, c).Violation? :: c.contentHash in q
    ensures Screen(p, byHash, q, chunks).quarantine == q
  {
    if chunks != [] {
      var rest, last := chunks[..|chunks| - 1], chunks[|chunks| - 1];
      assert last in chunks && forall c | c in rest :: c in chunks;
      ScreenAgain(p, byHash, q, rest);
    }
  }

  lemma {:induction false} ScreenIgnoresDay(
      p: Setup, day: string, byHash: map<string, Document>, q: map<string, Rejected>, chunks: seq<Chunk>)
    ensures Screen(OnDay(p, day), byHash, q, chunks) == Screen(p, byHash, q, chunks)
  {
    if chunks != [] { ScreenIgnoresDay(p, day, byHash, q, chunks[..|chunks| - 1]); }
  }

  lemma {:induction false} FailureIgnoresDay(p: Setup, day: string, byHash: map<string, Document>, s: Store,
        d: Document)
    ensures Ingest(OnDay(p, day), byHash, s, d, false) == Ingest(p, byHash, s, d, false)
  {
    ParseIgnoresDay(p, day, d);
    if Parse(p, d).Ok? { ScreenIgnoresDay(p, day, KnownAfter(p, byHash, d), s.quarantine, Unseen(p, s, d)); }
  }

  /** Retrying after the backend failed, on whatever day, reaches the same store, with the same report, as a
      first run on that day that met a working backend. */
  lemma {:induction false} RetryRecovers(p: Setup, byHash: map<string, Document>, s: Store, d: Document, day: string)
    requires Ingest(p, byHash, s, d, false).report == Err(EmbeddingFailed)
    ensures var broken := Ingest(p, byHash, s, d, false).store;
      Ingest(OnDay(p, day), KnownAfter(p, byHash, d), broken, d, true) == Ingest(OnDay(p, day), byHash, s, d, true)
  {
    FailureIgnoresDay(p, day, byHash, s, d);
    SameDayRetry(OnDay(p, day), byHash, s, d);
  }

  lemma {:induction false} SameDayRetry(p: Setup, byHash: map<string, Document>, s: Store, d: Document)
    requires Ingest(p, byHash, s, d, false).report == Err(EmbeddingFailed)
    ensures var broken := Ingest(p, byHash, s, d, false).store;
      Ingest(p, KnownAfter(p, byHash, d), broken, d, true) == Ingest(p, byHash, s, d, true)
  {
    var known := KnownAfter(p, byHash, d);
    assert KnownAfter(p, known, d) == known;
    FailureAddsNoChunk(p, byHash, s, d, false, "");
    LoadAgain(p, known, s, Unseen(p, s, d));
  }

  lemma {:induction false} LoadAgain(p: Setup, known: map<string, Document>, s: Store, unseen: seq<Chunk>)
    requires Load(p, known, s, unseen, false).report == Err(EmbeddingFailed)
    ensures Load(p, known, Load(p, known, s, unseen, false).store, unseen, true) == Load(p, known, s, unseen, true)
  {
    ScreenFailures(p, known, s.quarantine, unseen);
    var screened := Screen(p, known, s.quarantine, unseen);
    ScreenedAreKnown(p, known, s.quarantine, unseen);
    forall c | c in unseen && VerdictIn(p, known, c).Violation? ensures c.contentHash in screened.quarantine {
      ScreenMeaning(p, known, s.quarantine, unseen, c);
    }
    ScreenAgain(p, known, screened.quarantine, unseen);
    ValidIgnoresQuarantine(p, known, s.quarantine, screened.quarantine, unseen);
    WriteAgain(p, known, s.(quarantine := screened.quarantine), screened.valid.value);
  }

  lemma {:induction false} WriteAgain(p: Setup, known: map<string, Document>, s: Store, chunks: seq<Chunk>)
    requires Known(known, chunks)
    ensures Write(p, known, Write(p, known, s, chunks, p.version, false).store, chunks, p.version, true)
         == Write(p, known, s, chunks, p.version, true)
  {
    if chunks != [] { ParentsAgain(s.documents, known, DocumentHashes(chunks)); }
  }

  lemma {:induction false} ParentsAgain(documents: map<string, Document>, known: map<string, Document>,
      hashes: set<string>)
    requires hashes <= known.Keys
    ensures var once := WithParents(documents, known, hashes); WithParents(once, known, hashes) == once
  {
  }

  // ------------------------------------------------------------------ an over-counting document

  /** A document whose text repeats in two chunks: two are reported, one row is added. */
  lemma {:induction false} RepeatedTextOverCounts() returns (p: Setup, s: Store, d: Document)
    ensures var run := Ingest(p, map[], s, d, true);
      && run.report.Ok? && run.report.value.chunksNew == 2 && |run.store.chunks| - |s.chunks| == 1
  {
    p := Setup(t => t, t => t, t => Val([t, t]), t => {}, (hashes, version) => "digest",
               "v1", "e1", "2026-01-02", {"open"}, {"public"});
    s := Store(map[], map[], map[]);
    d := Document("uri", "text", "text/plain", "open", "public");
    var a, b := ChunkAt(p, d, ["text", "text"], 0), ChunkAt(p, d, ["text", "text"], 1);
    var known := KnownAfter(p, map[], d);
    assert Parse(p, d).value == [a, b];
    assert [a, b][..1] == [a] && [a][..0] == [];
    assert Fresh(s.chunks, [a], p.version) == [a];
    assert Unseen(p, s, d) == [a, b];
    assert Screen(p, known, s.quarantine, [a]).valid == Ok([a]);
    assert ToWrite(p, map[], s, d) == Ok([a, b]);
    RowsAdded(p, known, s, [a, b]);
    assert ContentHashes([a]) == ["text"];
    assert ContentHashes([a, b]) == ["text", "text"];
    assert HashSet([a, b]) == {"text"};
  }
}
