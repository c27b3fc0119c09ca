/**
 * `DocumentProcessor`: the in-memory store of documents and their chunks, and the two kinds
 * of file it keeps in its storage directory, `metadata.json` (all records, in insertion
 * order) and one `<id>_chunks.json` per document.
 */
module DocumentStore {
  import opened Wrappers
  import opened Text
  import opened Records
  import opened OrderedDict
  import opened Chunker
  import opened Retrieval
  import opened Ingest
  import opened Paths

  /**
   * Both maps are well formed; only stored documents have chunks; what memory holds is on
   * disk: the metadata file holds the records (unless memory holds nothing at all) and each
   * chunk list is in its file.
   */
  ghost predicate Consistent(documents: Dict<string, DocRecord>, documentChunks: Dict<string, seq<Chunk>>,
                             metadataFile: Option<Dict<string, DocRecord>>, chunkFiles: map<string, seq<Chunk>>)
  {
    && documents.Valid()
    && documentChunks.Valid()
    && (metadataFile.Some? ==> metadataFile.value.Valid())
    && (forall k :: k in documentChunks.entries ==> k in documents.entries)
    && (metadataFile == Some(documents) || (documents.IsEmpty() && documentChunks.IsEmpty()))
    && (forall k :: k in documentChunks.entries ==> k in chunkFiles && chunkFiles[k] == documentChunks.entries[k])
  }

  /** Whatever the chunk files held before, a store is consistent right after it is saved. */
  lemma SavedIsConsistent(documents: Dict<string, DocRecord>, documentChunks: Dict<string, seq<Chunk>>,
                          before: map<string, seq<Chunk>>)
    requires documents.Valid() && documentChunks.Valid()
    requires forall k :: k in documentChunks.entries ==> k in documents.entries
    ensures Consistent(documents, documentChunks, Some(documents), before + documentChunks.entries)
  {
  }

  /**
   * After a text is stored under `id`, each of its chunks that contains a query token is a
   * candidate of retrieval, with its score and the document's file name.
   */
  lemma StoredChunksAreCandidates(documents: Dict<string, DocRecord>, documentChunks: Dict<string, seq<Chunk>>,
                                  id: string, text: string, tokens: seq<string>, c: Chunk)
    requires documentChunks.Valid()
    requires c in Chunks(text) && ChunkScore(tokens, c) > 0
    ensures var stored := Put(documentChunks, id, Chunks(text));
      Hit(id, FilenameOf(documents, id), c, ChunkScore(tokens, c)) in Candidates(documents, stored, tokens)
  {
    PutCandidate(documents, documentChunks, id, Chunks(text), tokens, c);
  }

  class DocumentProcessor {
    /** The optional readers that imported. */
    const caps: Capabilities
    /** MD5, UTF-8 decoding and the format readers. */
    const lib: Library

    /** `self.documents`: the record of each document, by id. */
    var documents: Dict<string, DocRecord>
    /** `self.document_chunks`: the chunks of each document, by id. */
    var documentChunks: Dict<string, seq<Chunk>>
    /** `self._documents_loaded` */
    var documentsLoaded: bool

    /** The content of `metadata.json` in the storage directory, if the file exists. */
    var metadataFile: Option<Dict<string, DocRecord>>
    /** The `<id>_chunks.json` files of the storage directory, by id. */
    var chunkFiles: map<string, seq<Chunk>>

    /** The store is consistent, in memory and on disk. */
    ghost predicate Valid()
      reads this
    {
      Consistent(documents, documentChunks, metadataFile, chunkFiles)
    }

    /** `__init__`: nothing in memory, nothing loaded yet; the directory holds what it holds. */
    constructor (caps: Capabilities, lib: Library,
                 metadataOnDisk: Option<Dict<string, DocRecord>>, chunkFilesOnDisk: map<string, seq<Chunk>>)
      requires metadataOnDisk.Some? ==> metadataOnDisk.value.Valid()
      ensures Valid()
      ensures this.caps == caps && this.lib == lib
      ensures documents == Empty() && documentChunks == Empty() && !documentsLoaded
      ensures metadataFile == metadataOnDisk && chunkFiles == chunkFilesOnDisk
    {
      this.caps := caps;
      this.lib := lib;
      documents := Empty();
      documentChunks := Empty();
      documentsLoaded := false;
      metadataFile := metadataOnDisk;
      chunkFiles := chunkFilesOnDisk;
    }

    /**
     * `load_documents`: once only, replace the records by those of the metadata file and take
     * each listed document's chunks from its file, keeping the chunks already in memory.
     */
    method LoadDocuments()
      requires Valid()
      modifies this
      ensures Valid()
      ensures metadataFile == old(metadataFile) && chunkFiles == old(chunkFiles)
      ensures old(documentsLoaded) ==> documents == old(documents) && documentChunks == old(documentChunks)
      ensures documentsLoaded
      ensures !old(documentsLoaded) && metadataFile.Some? ==>
        && documents == metadataFile.value
        && documentChunks == MergeChunkFiles(old(documentChunks), documents.keys, chunkFiles)
      ensures !old(documentsLoaded) && metadataFile.None? ==>
        documents == old(documents) && documentChunks == old(documentChunks)
    {
      if documentsLoaded {
        return;
      }
      if metadataFile.Some? {
        var loaded := metadataFile.value;
        ghost var before := documentChunks;
        assert documents.IsEmpty() ==> forall k :: k !in before.entries;
        documents := loaded;
        var i := 0;
        while i < |loaded.keys|
          invariant 0 <= i <= |loaded.keys|
          invariant documentChunks == MergeChunkFiles(before, loaded.keys[..i], chunkFiles)
          invariant documents == loaded && !documentsLoaded
          invariant metadataFile == old(metadataFile) && chunkFiles == old(chunkFiles)
        {
          var id := loaded.keys[i];
          assert loaded.keys[..i + 1][..i] == loaded.keys[..i];
          if id in chunkFiles {
            documentChunks := Put(documentChunks, id, chunkFiles[id]);
          }
          i := i + 1;
        }
        assert loaded.keys[..i] == loaded.keys;
        MergeEntries(before, loaded.keys, chunkFiles);
      }
      documentsLoaded := true;
    }

    /**
     * `save_documents`: write the records to the metadata file and each document's chunks to
     * its own file; chunk files of other ids stay as they were.
     */
    method SaveDocuments()
      requires documents.Valid() && documentChunks.Valid()
      modifies this
      ensures metadataFile == Some(documents)
      ensures chunkFiles == old(chunkFiles) + documentChunks.entries
      ensures documents == old(documents) && documentChunks == old(documentChunks)
      ensures documentsLoaded == old(documentsLoaded)
    {
      metadataFile := Some(documents);
      var i := 0;
      while i < |documentChunks.keys|
        invariant 0 <= i <= |documentChunks.keys|
        invariant documents == old(documents) && documentChunks == old(documentChunks)
        invariant metadataFile == Some(documents) && documentsLoaded == old(documentsLoaded)
        invariant chunkFiles == old(chunkFiles) + Restrict(documentChunks.entries, documentChunks.keys[..i])
      {
        var id := documentChunks.keys[i];
        RestrictStep(documentChunks.entries, documentChunks.keys, i);
        MergeUpdate(old(chunkFiles), Restrict(documentChunks.entries, documentChunks.keys[..i]), id, documentChunks.entries[id]);
        chunkFiles := chunkFiles[id := documentChunks.entries[id]];
        i := i + 1;
      }
      assert documentChunks.keys[..i] == documentChunks.keys;
      RestrictAll(documentChunks);
    }

    /**
     * `process_document(path)` on the files `files`, at time `now`: a missing file, a text that
     * cannot be extracted and an empty text give nothing and change nothing; otherwise the
     * document is stored under the digest of its bytes, with its record and its chunks, and saved.
     */
    method ProcessDocument(path: string, files: map<string, seq<Byte>>, now: string) returns (r: Option<string>)
      requires Valid()
      modifies this
      ensures Valid()
      ensures documentsLoaded == old(documentsLoaded)
      ensures IngestedText(path, files, caps, lib).None? ==>
        && r.None?
        && documents == old(documents) && documentChunks == old(documentChunks)
        && metadataFile == old(metadataFile) && chunkFiles == old(chunkFiles)
      ensures IngestedText(path, files, caps, lib).Some? ==>
        var text := IngestedText(path, files, caps, lib).value;
        var id := lib.digest(files[path]);
        && r == Some(id)
        && documents == Put(old(documents), id, RecordFor(path, |files[path]|, now, text))
        && documentChunks == Put(old(documentChunks), id, Chunks(text))
        && id in documents.entries && id in documentChunks.entries
        && documents.entries[id].contentLength == |text|
        && documents.entries[id].chunksCount == |documentChunks.entries[id]|
        && metadataFile == Some(documents)
        && chunkFiles == old(chunkFiles) + documentChunks.entries
    {
      if path !in files {
        return None;
      }
      var content := files[path];
      var id := lib.digest(content);
      var extracted := ExtractText(path, content, caps, lib);
      if extracted.None? || extracted.value == [] {
        assert IngestedText(path, files, caps, lib).None?;
        return None;
      }
      var text := extracted.value;
      assert IngestedText(path, files, caps, lib) == Some(text);
      StoreDocument(id, path, |content|, now, text);
      r := Some(id);
    }

    /** The second half of `process_document`: store the record and the chunks of `text` under `id`, and save. */
    method StoreDocument(id: string, path: string, size: nat, now: string, text: string)
      requires Valid()
      modifies this
      ensures Valid()
      ensures documentsLoaded == old(documentsLoaded)
      ensures id in documents.entries && id in documentChunks.entries
      ensures documents.entries[id].filename == Basename(path) && documents.entries[id].filepath == path
      ensures documents.entries[id].size == size && documents.entries[id].uploadedAt == now
      ensures documents.entries[id].contentLength == |text|
      ensures documents.entries[id].chunksCount == |documentChunks.entries[id]|
      ensures documents == Put(old(documents), id, RecordFor(path, size, now, text))
      ensures documentChunks == Put(old(documentChunks), id, Chunks(text))
      ensures metadataFile == Some(documents)
      ensures chunkFiles == old(chunkFiles) + documentChunks.entries
    {
      var metadata := DocRecord(Basename(path), path, size, now, |text|, 0);
      documents := Put(documents, id, metadata);
      var chunks := CreateChunks(text);
      documentChunks := Put(documentChunks, id, chunks);
      // The record stored above is the dictionary whose `chunks_count` is set now.
      documents := Put(documents, id, metadata.(chunksCount := |chunks|));
      PutTwice(old(documents), id, metadata, RecordFor(path, size, now, text));
      SaveDocuments();
      SavedIsConsistent(documents, documentChunks, old(chunkFiles));
    }

    /**
     * `remove_document(id)`: forget the document and its chunks, delete its chunk file, save,
     * and report success, whether or not the id was known.
     */
    method RemoveDocument(docId: string) returns (removed: bool)
      requires Valid()
      modifies this
      ensures Valid()
      ensures removed
      ensures documents == Remove(old(documents), docId)
      ensures documentChunks == Remove(old(documentChunks), docId)
      ensures metadataFile == Some(documents)
      ensures chunkFiles == (old(chunkFiles) - {docId}) + documentChunks.entries
      ensures documentsLoaded == old(documentsLoaded)
    {
      documents := Remove(documents, docId);
      documentChunks := Remove(documentChunks, docId);
      chunkFiles := chunkFiles - {docId};
      SaveDocuments();
      SavedIsConsistent(documents, documentChunks, old(chunkFiles) - {docId});
      removed := true;
    }

    /** `clear_all_documents`: forget every document and save; the chunk files stay on disk. */
    method ClearAllDocuments()
      requires Valid()
      modifies this
      ensures Valid()
      ensures documents == Empty() && documentChunks == Empty()
      ensures metadataFile == Some(Empty()) && chunkFiles == old(chunkFiles)
      ensures documentsLoaded == old(documentsLoaded)
    {
      documents := Empty();
      documentChunks := Empty();
      SaveDocuments();
      SavedIsConsistent(documents, documentChunks, old(chunkFiles));
    }

    /** `list_documents`: load if not yet loaded, then one summary per document in insertion order. */
    method ListDocuments() returns (listing: seq<Summary>)
      requires Valid()
      modifies this
      ensures Valid()
      ensures metadataFile == old(metadataFile) && chunkFiles == old(chunkFiles) && documentsLoaded
      ensures old(documentsLoaded) ==> documents == old(documents) && documentChunks == old(documentChunks)
      ensures !old(documentsLoaded) && metadataFile.Some? ==>
        && documents == metadataFile.value
        && documentChunks == MergeChunkFiles(old(documentChunks), documents.keys, chunkFiles)
      ensures !old(documentsLoaded) && metadataFile.None? ==>
        documents == old(documents) && documentChunks == old(documentChunks)
      ensures listing == Listing(documents)
    {
      LoadDocuments();
      listing := Summarize(documents);
    }

    /**
     * `get_document_context(query, max_chunks)`: score every chunk of every document against
     * the query's tokens, keep the chunks that score, rank them, and render the first
     * `max_chunks` of them; `max_chunks` defaults to 3.
     */
    method GetDocumentContext(query: string, maxChunks: int := 3) returns (context: string)
      requires Valid()
      ensures context == Context(documents, documentChunks, query, maxChunks)
    {
      if documents.IsEmpty() {
        return "";
      }
      var tokens := Tokens(query);
      var relevant := CollectHits(documents, documentChunks, tokens);
      relevant := Ranked(relevant);
      var selected := Take(relevant, maxChunks);
      assert selected == Selected(documents, documentChunks, query, maxChunks);
      var parts := RenderBlocks(selected);
      context := Join(parts, "\n");
    }
  }

  /** The loop of `get_document_context` over the documents' chunk lists, in their order. */
  method CollectHits(documents: Dict<string, DocRecord>, documentChunks: Dict<string, seq<Chunk>>,
                     tokens: seq<string>) returns (relevant: seq<Hit>)
    requires documentChunks.Valid()
    ensures relevant == Candidates(documents, documentChunks, tokens)
  {
    relevant := [];
    var ids := documentChunks.keys;
    var i := 0;
    while i < |ids|
      invariant 0 <= i <= |ids|
      invariant forall k :: 0 <= k < |ids| ==> ids[k] in documentChunks.entries
      invariant relevant == HitsOver(documents, documentChunks, tokens, ids[..i])
    {
      var id := ids[i];
      var hits := ScoreChunks(tokens, id, FilenameOf(documents, id), documentChunks.entries[id]);
      HitsOverStep(documents, documentChunks, tokens, ids, i);
      relevant := relevant + hits;
      i := i + 1;
    }
    assert ids[..i] == ids;
  }

  /** The loop of `list_documents`: one summary per document, in insertion order. */
  method Summarize(docs: Dict<string, DocRecord>) returns (listing: seq<Summary>)
    requires docs.Valid()
    ensures listing == Listing(docs)
  {
    listing := [];
    var i := 0;
    while i < |docs.keys|
      invariant 0 <= i <= |docs.keys|
      invariant listing == Summaries(docs, docs.keys[..i])
    {
      var id := docs.keys[i];
      SummariesStep(docs, docs.keys, i);
      listing := listing + [SummaryOf(id, docs.entries[id])];
      i := i + 1;
    }
    assert docs.keys[..i] == docs.keys;
  }

  /** The rendering loop of `get_document_context`: one block per selected hit, in order. */
  method RenderBlocks(selected: seq<Hit>) returns (parts: seq<string>)
    ensures parts == Blocks(selected)
  {
    parts := [];
    var j := 0;
    while j < |selected|
      invariant 0 <= j <= |selected|
      invariant parts == Blocks(selected[..j])
    {
      var h := selected[j];
      parts := parts + [Block(h)];
      j := j + 1;
    }
    assert selected[..j] == selected;
  }

  /** The inner loop of `get_document_context` over one document's chunks. */
  method ScoreChunks(tokens: seq<string>, docId: string, filename: string, chunks: seq<Chunk>) returns (hits: seq<Hit>)
    ensures hits == HitsOf(tokens, docId, filename, chunks)
  {
    hits := [];
    var k := 0;
    while k < |chunks|
      invariant 0 <= k <= |chunks|
      invariant hits == HitsOf(tokens, docId, filename, chunks[..k])
    {
      var chunk := chunks[k];
      var chunkText := Lower(chunk.text);
      var score := 0;
      var t := 0;
      while t < |tokens|
        invariant 0 <= t <= |tokens|
        invariant score == Score(tokens[..t], chunkText)
      {
        assert tokens[..t + 1][..t] == tokens[..t];
        if Contains(chunkText, tokens[t]) {
          score := score + 1;
        }
        t := t + 1;
      }
      assert tokens[..t] == tokens;
      assert chunks[..k + 1][..k] == chunks[..k];
      if score > 0 {
        hits := hits + [Hit(docId, filename, chunk, score)];
      }
      k := k + 1;
    }
    assert chunks[..k] == chunks;
  }
}
