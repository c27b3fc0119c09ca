/**
 * The value-level side of `DocumentProcessor`: which formats can be read, how a file's text is
 * obtained, the record written for a document, the listing of the documents, and how the
 * chunk files on disk are merged back in at load time.
 */
module Ingest {
  import opened Wrappers
  import opened Text
  import opened Records
  import opened OrderedDict
  import opened Paths
  import opened Chunker

  /* ---------------------------------------------------------------------------------------- */
  /* Formats                                                                                   */

  /** Which optional libraries imported: `PDF_AVAILABLE`, `DOCX_AVAILABLE`, `PANDAS_AVAILABLE`. */
  datatype Capabilities = Capabilities(pdf: bool, docx: bool, pandas: bool)

  /** `get_supported_formats`: `.txt`, then the formats of the libraries that are present. */
  function SupportedFormats(caps: Capabilities): (formats: seq<string>)
    ensures |formats| >= 1 && formats[0] == ".txt"
  {
    [".txt"]
      + (if caps.pdf then [".pdf"] else [])
      + (if caps.docx then [".docx"] else [])
      + (if caps.pandas then [".csv", ".xlsx", ".xls"] else [])
  }

  /** The branch of `_extract_text` a lower-cased extension takes. */
  datatype Reader = PlainText | Pdf | Word | Spreadsheet | Unsupported

  function ReaderFor(ext: string, caps: Capabilities): Reader {
    if ext == ".txt" then PlainText
    else if ext == ".pdf" && caps.pdf then Pdf
    else if ext == ".docx" && caps.docx then Word
    else if (ext == ".csv" || ext == ".xlsx" || ext == ".xls") && caps.pandas then Spreadsheet
    else Unsupported
  }

  /** The advertised formats are exactly the extensions `_extract_text` has a reader for. */
  lemma SupportedIffReadable(ext: string, caps: Capabilities)
    ensures ext in SupportedFormats(caps) <==> ReaderFor(ext, caps) != Unsupported
  {
    var formats := SupportedFormats(caps);
    if ReaderFor(ext, caps) != Unsupported {
      if ext == ".txt" {
        assert formats[0] == ext;
      } else if ext == ".pdf" && caps.pdf {
        assert formats[1] == ext;
      } else if ext == ".docx" && caps.docx {
        assert formats[if caps.pdf then 2 else 1] == ext;
      } else {
        var base := 1 + (if caps.pdf then 1 else 0) + (if caps.docx then 1 else 0);
        assert formats[base..] == [".csv", ".xlsx", ".xls"];
        assert formats[base + (if ext == ".csv" then 0 else if ext == ".xlsx" then 1 else 2)] == ext;
      }
    }
  }

  /* ---------------------------------------------------------------------------------------- */
  /* Text extraction                                                                           */

  /**
   * The library calls the processor depends on, as functions of the file's bytes: the first
   * 16 hex digits of MD5, reading the file as UTF-8 text (nothing when it does not decode),
   * and the PDF, Word and spreadsheet readers (`True` asks `read_excel`, `False` `read_csv`).
   * A reader that fails part way returns the text it had gathered by then, which may be empty
   * or partial; these functions give that text.
   */
  datatype Library = Library(
    digest: seq<Byte> -> DocId,
    decodeUtf8: seq<Byte> -> Option<string>,
    pdfText: seq<Byte> -> string,
    docxText: seq<Byte> -> string,
    sheetText: (bool, seq<Byte>) -> string)

  /** `_extract_text(path)` on a file holding `content`. */
  function ExtractText(path: string, content: seq<Byte>, caps: Capabilities, lib: Library): Option<string> {
    match ReaderFor(Lower(Extension(path)), caps)
    case PlainText => lib.decodeUtf8(content)
    case Pdf => Some(lib.pdfText(content))
    case Word => Some(lib.docxText(content))
    case Spreadsheet => Some(lib.sheetText(EndsWith(path, ".xlsx") || EndsWith(path, ".xls"), content))
    case Unsupported => None
  }

  /**
   * Extraction yields nothing exactly when the extension, lower-cased, is not a supported
   * format, or when it is `.txt` and the bytes are not UTF-8.
   */
  lemma ExtractFailsIff(path: string, content: seq<Byte>, caps: Capabilities, lib: Library)
    ensures var ext := Lower(Extension(path));
      ExtractText(path, content, caps, lib).None? <==>
        ext !in SupportedFormats(caps) || (ext == ".txt" && lib.decodeUtf8(content).None?)
  {
    SupportedIffReadable(Lower(Extension(path)), caps);
  }

  /** The text `process_document` goes on with: nothing for a missing file, a failed or an empty extraction. */
  function IngestedText(path: string, files: map<string, seq<Byte>>, caps: Capabilities, lib: Library): (t: Option<string>)
    ensures t.Some? ==> path in files && t.value != [] && ExtractText(path, files[path], caps, lib) == t
    ensures (path in files && ExtractText(path, files[path], caps, lib).Some?
             && ExtractText(path, files[path], caps, lib).value != []) ==> t.Some?
  {
    if path !in files then None
    else match ExtractText(path, files[path], caps, lib)
      case None => None
      case Some(text) => if text == [] then None else Some(text)
  }

  /**
   * The record stored for a document: its base name, its path, its size in bytes, the time of
   * ingestion, the length of its text and the number of its chunks.
   */
  function RecordFor(path: string, size: nat, now: string, text: string): (r: DocRecord)
    ensures r.filename == Basename(path) && r.filepath == path && r.size == size
    ensures r.uploadedAt == now && r.contentLength == |text| && r.chunksCount == |Chunks(text)|
  {
    DocRecord(Basename(path), path, size, now, |text|, |Chunks(text)|)
  }

  /** A text of whitespace only is still stored: with no chunks. */
  lemma BlankTextRecord(path: string, size: nat, now: string, text: string)
    requires IsBlank(text)
    ensures Chunks(text) == [] && RecordFor(path, size, now, text).chunksCount == 0
  {
    NoChunksIffBlank(text);
  }

  /* ---------------------------------------------------------------------------------------- */
  /* Listing                                                                                   */

  /** One entry of `list_documents`. */
  datatype Summary = Summary(id: string, filename: string, uploadedAt: string, size: nat, chunksCount: nat)

  function SummaryOf(id: string, r: DocRecord): Summary {
    Summary(id, r.filename, r.uploadedAt, r.size, r.chunksCount)
  }

  /** The summaries of the documents listed in `ids`, in that order. */
  function Summaries(documents: Dict<string, DocRecord>, ids: seq<string>): (l: seq<Summary>)
    requires forall i :: 0 <= i < |ids| ==> ids[i] in documents.entries
    ensures |l| == |ids|
    ensures forall i :: 0 <= i < |ids| ==> l[i] == SummaryOf(ids[i], documents.entries[ids[i]])
  {
    if ids == [] then [] else [SummaryOf(ids[0], documents.entries[ids[0]])] + Summaries(documents, ids[1..])
  }

  /** Summarising one more listed document appends its summary. */
  lemma SummariesStep(documents: Dict<string, DocRecord>, ids: seq<string>, i: nat)
    requires i < |ids| && forall k :: 0 <= k < |ids| ==> ids[k] in documents.entries
    ensures Summaries(documents, ids[..i + 1]) == Summaries(documents, ids[..i]) + [SummaryOf(ids[i], documents.entries[ids[i]])]
  {
  }

  /** `list_documents` on loaded documents: one summary per document, in insertion order. */
  function Listing(documents: Dict<string, DocRecord>): seq<Summary>
    requires documents.Valid()
  {
    Summaries(documents, documents.keys)
  }

  /** Storing a new document lists it last; storing one again keeps its place and shows the new record. */
  lemma ListingAfterPut(documents: Dict<string, DocRecord>, id: string, r: DocRecord)
    requires documents.Valid()
    ensures var l := Listing(Put(documents, id, r));
      && (id !in documents.entries ==> l == Listing(documents) + [SummaryOf(id, r)])
      && (id in documents.entries ==>
            |l| == |documents.keys| &&
            forall i :: 0 <= i < |l| ==>
              l[i] == if documents.keys[i] == id then SummaryOf(id, r) else Listing(documents)[i])
  {
    if id !in documents.entries {
      ListingAfterPutNew(documents, id, r);
    } else {
      ListingAfterPutExisting(documents, id, r);
    }
  }

  lemma ListingAfterPutNew(documents: Dict<string, DocRecord>, id: string, r: DocRecord)
    requires documents.Valid() && id !in documents.entries
    ensures Listing(Put(documents, id, r)) == Listing(documents) + [SummaryOf(id, r)]
  {
    var d' := Put(documents, id, r);
    var l, l0 := Listing(d'), Listing(documents);
    assert d'.keys == documents.keys + [id];
    forall i | 0 <= i < |l0|
      ensures l[i] == l0[i]
    {
      assert d'.keys[i] == documents.keys[i] != id;
    }
    assert l[|l0|] == SummaryOf(id, r);
  }

  lemma ListingAfterPutExisting(documents: Dict<string, DocRecord>, id: string, r: DocRecord)
    requires documents.Valid() && id in documents.entries
    ensures var l := Listing(Put(documents, id, r));
      |l| == |documents.keys| &&
      forall i :: 0 <= i < |l| ==>
        l[i] == if documents.keys[i] == id then SummaryOf(id, r) else Listing(documents)[i]
  {
  }

  /** Removing a document drops its entry from the listing and keeps the others in order. */
  lemma ListingAfterRemove(documents: Dict<string, DocRecord>, i: nat)
    requires documents.Valid() && i < |documents.keys|
    ensures var l := Listing(documents);
      Listing(Remove(documents, documents.keys[i])) == l[..i] + l[i + 1..]
  {
    var id := documents.keys[i];
    var d' := Remove(documents, id);
    RemoveKeepsOrder(documents, i);
    var l := Listing(documents);
    var l' := Listing(d');
    forall j | 0 <= j < |l'|
      ensures l'[j] == l[if j < i then j else j + 1]
    {
      var k := if j < i then j else j + 1;
      var key := documents.keys[k];
      assert d'.keys[j] == key && key != id;
      assert d'.entries[key] == documents.entries[key];
    }
    DropOne(l, l', i);
  }

  /** A sequence that is `l` without its element at `i`, position by position, is `l[..i] + l[i + 1..]`. */
  lemma DropOne<T>(l: seq<T>, l': seq<T>, i: nat)
    requires i < |l| && |l'| == |l| - 1
    requires forall j :: 0 <= j < |l'| ==> l'[j] == l[if j < i then j else j + 1]
    ensures l' == l[..i] + l[i + 1..]
  {
  }

  /* ---------------------------------------------------------------------------------------- */
  /* Loading                                                                                   */

  /** `load_documents`' loop: for each listed id that has a chunk file, that file's chunks are stored. */
  function MergeChunkFiles(chunks: Dict<string, seq<Chunk>>, ids: seq<string>,
                           files: map<string, seq<Chunk>>): (r: Dict<string, seq<Chunk>>)
    requires chunks.Valid()
    ensures r.Valid()
  {
    if ids == [] then chunks
    else
      var r := MergeChunkFiles(chunks, ids[..|ids| - 1], files);
      var id := ids[|ids| - 1];
      if id in files then Put(r, id, files[id]) else r
  }

  /**
   * After the merge an id has chunks exactly when it had them before or it is listed and has a
   * chunk file; the chunk file wins for listed ids.
   */
  lemma {:induction false} MergeEntries(chunks: Dict<string, seq<Chunk>>, ids: seq<string>,
                                        files: map<string, seq<Chunk>>)
    requires chunks.Valid()
    ensures var r := MergeChunkFiles(chunks, ids, files);
      && (forall k :: k in r.entries <==> k in chunks.entries || (k in ids && k in files))
      && (forall k :: k in r.entries ==>
            r.entries[k] == if k in ids && k in files then files[k] else chunks.entries[k])
  {
    if ids != [] {
      var init := ids[..|ids| - 1];
      MergeEntries(chunks, init, files);
      assert ids == init + [ids[|ids| - 1]];
    }
  }

  /** The ids of `ids` that have a chunk file, in their order. */
  function WithFile(ids: seq<string>, files: map<string, seq<Chunk>>): (r: seq<string>)
    ensures forall x :: x in r <==> x in ids && x in files
  {
    if ids == [] then []
    else
      var init, last := ids[..|ids| - 1], ids[|ids| - 1];
      assert ids == init + [last];
      WithFile(init, files) + (if last in files then [last] else [])
  }

  /** When every id has a chunk file, none is filtered out. */
  lemma {:induction false} WithFileAll(ids: seq<string>, files: map<string, seq<Chunk>>)
    requires forall i :: 0 <= i < |ids| ==> ids[i] in files
    ensures WithFile(ids, files) == ids
  {
    if ids != [] {
      var init := ids[..|ids| - 1];
      assert forall i :: 0 <= i < |init| ==> init[i] in files;
      WithFileAll(init, files);
      assert init + [ids[|ids| - 1]] == ids;
    }
  }

  /**
   * Loading into an empty store lists the chunk lists in metadata order, skipping the ids
   * that have no chunk file.
   */
  lemma {:induction false} MergeKeys(ids: seq<string>, files: map<string, seq<Chunk>>)
    requires Distinct(ids)
    ensures MergeChunkFiles(Empty(), ids, files).keys == WithFile(ids, files)
  {
    if ids != [] {
      var init, last := ids[..|ids| - 1], ids[|ids| - 1];
      DistinctPrefix(ids);
      MergeKeys(init, files);
      var r := MergeChunkFiles(Empty(), init, files);
      assert last !in r.keys;
      if last in files {
        assert MergeChunkFiles(Empty(), ids, files) == Put(r, last, files[last]);
      }
    }
  }

  /**
   * Saving and loading again gives back the store: when every document has chunks and every
   * chunk list is in its file, loading the saved metadata into a fresh processor restores the
   * documents' chunks, listed in the documents' order.
   */
  lemma ReloadRestores(documents: Dict<string, DocRecord>, chunks: Dict<string, seq<Chunk>>,
                       files: map<string, seq<Chunk>>)
    requires documents.Valid() && chunks.Valid()
    requires forall k :: k in chunks.entries <==> k in documents.entries
    requires forall k :: k in chunks.entries ==> k in files && files[k] == chunks.entries[k]
    ensures var r := MergeChunkFiles(Empty(), documents.keys, files);
      r.entries == chunks.entries && r.keys == documents.keys
  {
    ReloadEntries(documents, chunks, files);
    ReloadKeys(documents, chunks, files);
  }

  /** The chunk lists loaded back are those that were saved. */
  lemma ReloadEntries(documents: Dict<string, DocRecord>, chunks: Dict<string, seq<Chunk>>,
                      files: map<string, seq<Chunk>>)
    requires documents.Valid()
    requires forall k :: k in chunks.entries <==> k in documents.entries
    requires forall k :: k in chunks.entries ==> k in files && files[k] == chunks.entries[k]
    ensures MergeChunkFiles(Empty(), documents.keys, files).entries == chunks.entries
  {
    var r := MergeChunkFiles(Empty(), documents.keys, files);
    MergeEntries(Empty(), documents.keys, files);
    assert forall k :: k in r.entries <==> k in chunks.entries;
  }

  /** The chunk lists loaded back are listed in the documents' order. */
  lemma ReloadKeys(documents: Dict<string, DocRecord>, chunks: Dict<string, seq<Chunk>>,
                   files: map<string, seq<Chunk>>)
    requires documents.Valid()
    requires forall k :: k in chunks.entries <==> k in documents.entries
    requires forall k :: k in chunks.entries ==> k in files
    ensures MergeChunkFiles(Empty(), documents.keys, files).keys == documents.keys
  {
    var ids := documents.keys;
    forall i | 0 <= i < |ids| ensures ids[i] in files {
      assert ids[i] in documents.entries;
    }
    MergeKeys(ids, files);
    WithFileAll(ids, files);
  }
}
