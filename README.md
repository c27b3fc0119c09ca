# Document store, keyword retrieval and Google Docs URLs

This project is a Dafny model of the document core of the Llamita voice assistant. It has two
parts.

**`DocumentProcessor`** (`src/document_processor.py`) ingests local files. It takes the first
16 hex digits of the MD5 digest of a file's bytes as the document id and extracts the text with
a reader picked by the lower-cased extension. It cuts the text into overlapping chunks and keeps
two insertion-ordered dictionaries, `documents` (one record per id) and `document_chunks` (the
chunk list per id). Both are persisted to a storage directory: `metadata.json` holds all
records, and `<id>_chunks.json` holds each document's chunks. Loading from disk is lazy and
happens once. Retrieval scores every chunk by the number of query tokens that occur in it. It
ranks the scoring chunks with a stable sort, highest score first, and renders the best ones as
text blocks.

**`GoogleDocsProcessor`** (`src/google_docs_processor.py`) handles Google Docs URLs. It
recognises a URL as a document, spreadsheet or presentation, reads the document id out of it,
and builds the export URL of a document from two fixed tables.

Modules and files:

- `wrappers.dfy`: `Option` and `Result`.
- `text.dfy`: the Python string operations the code relies on. These are `str.strip`,
  `str.split()` with and without a separator, `str.join`, `str.lower`, `in`, `find`,
  `startswith` and `endswith`.
- `ordered_dict.dfy`: Python's insertion-ordered `dict`. Assigning to a present key keeps its
  place; `del` closes the gap.
- `paths.dfy`: `os.path.basename` and the extension half of `os.path.splitext`.
- `records.dfy`: document records, chunks and document ids.
- `chunker.dfy`: `_create_chunks`. The method `CreateChunks` keeps the source's loop and is
  proved equal to the function `Chunks`. That function is defined window by window.
- `retrieval.dfy`: the meaning of `get_document_context`, made of tokens, scores, candidates,
  ranking and rendering.
- `ingest.dfy`: supported formats, text extraction, the stored record, the listing, and the
  merge of chunk files at load time.
- `document_processor.dfy`: the class `DocumentProcessor`. Its fields are the two dictionaries,
  the loaded flag, and the two kinds of file in the storage directory. Its methods keep the
  source's loops and state their whole new state.
- `google_docs.dfy`: the URL logic and its round trip.

Some behaviours of the code that the model follows as written:

- `get_document_context` counts a query word once per occurrence in the query
  (`src/document_processor.py:279-293`): a word that appears twice in the query adds 2 to the
  score of a chunk that contains it.
- `remove_document` returns `True` for an unknown id as well (`src/document_processor.py:329-344`).
- `process_document` has no size ceiling, `_create_chunks` has no chunk-count ceiling, and its
  lookback is 100 positions (`src/document_processor.py:231-261`).
- Failures are reported as `None` (or `""`) and printed, not as typed errors.

Two behaviours of the code show in the contracts:

- `process_document` and the other writers save the in-memory records to `metadata.json`, loaded
  or not. An ingestion before any `load_documents` call therefore replaces the records of
  earlier sessions in that file. Their chunk files stay on disk.
- `get_document_context` does not load from disk. It sees only what this session stored or
  loaded.

## Model

| member | source | states |
|---|---|---|
| Chunker.WindowEnd | src/document_processor.py:237-245 | A window is 902 to 1001 characters long: the cut never moves back more than 98 positions from `start + 1000`. |
| Chunker.WindowEndCut | src/document_processor.py:237-245 | A window that does not reach the end of the text is cut right after the highest `.`, `!` or `?` in its last 100 positions, or at `start + 1000` when there is none. A window that reaches the end ends at `start + 1000`. |
| Chunker.CutPoint | src/document_processor.py:237-245 | The backward search loop computes exactly `WindowEnd`. |
| Chunker.CreateChunks | src/document_processor.py:231-261 | The chunking loop returns exactly `Chunks(text)`: one stripped, non-empty chunk per visited window, in order. |
| Chunker.ChunkAt | src/document_processor.py:247-254 | The loop body yields nothing exactly when the window's slice is blank. Otherwise it yields one chunk: the stripped slice, the window's start and end, and the stripped text's length. |
| Chunker.ChunkShape | src/document_processor.py:247-254 | Every emitted chunk's text is non-empty and equals `text[start:end].strip()`. Its `length` is the length of that text. Its window starts inside the text and ends where the cut rule puts it. |
| Chunker.WindowsAdvance | src/document_processor.py:236-259 | Each window is at most 1001 characters long. Each next window starts exactly `overlap` (200) before the previous window's end, and at least 702 positions after the previous start. |
| Chunker.WindowsCover | src/document_processor.py:236-259 | The visited windows cover every position of the text. |
| Chunker.WindowCount | src/document_processor.py:236-259 | The loop visits at most one window per 702 characters, rounded up, so it terminates. |
| Chunker.ChunkCount | src/document_processor.py:231-261 | At most one chunk per 702 characters of text, rounded up. |
| Chunker.WindowsFromIsChain | src/document_processor.py:236-259 | The visited windows form a chain. It starts at 0, each window ends where the cut rule says, each next start is the previous end minus 200, and the last end minus 200 reaches the end of the text. |
| Chunker.ChainIsWindowsFrom | src/document_processor.py:236-259 | Any such chain is the loop's window sequence, so the chain conditions determine the windows. |
| Chunker.NoChunksIffBlank | src/document_processor.py:236-259 | Text yields no chunks exactly when it is empty or whitespace only. |
| Chunker.ShortText | src/document_processor.py:236-259 | Text of at most 800 characters yields either nothing, when it is blank, or the single chunk `text.strip()` with start 0 and end 1000. |
| Chunker.TailWindows | src/document_processor.py:236-259 | Text of 801 to 1000 characters is visited twice: as `[0, 1000)` and as `[800, 1800)`. |
| Chunker.TailRepeated | src/document_processor.py:236-259 | For such text the chunks are the stripped whole text, then the stripped tail from 800 on, each present only when it is not blank. |
| Chunker.LastTerminalFound | src/document_processor.py:241-244 | The search finds the highest terminal in `(lo, hi]`, or there is none in that range. |
| Text.StripEnds | src/document_processor.py:247 | `strip()` gives an empty result exactly for blank text. Otherwise the result starts and ends with a non-space character. |
| Text.LeadingSpacesRun | src/document_processor.py:247 | The whitespace `strip` removes in front is the whole leading run of whitespace. |
| Text.TrailingSpacesRun | src/document_processor.py:247 | The whitespace `strip` removes at the end is the whole trailing run of whitespace. |
| Text.StripCutsOnlySpaces | src/document_processor.py:247 | `strip` removes only whitespace, and only at both ends. |
| Text.WordsSplit | src/document_processor.py:279 | `split()` takes the text apart: the text is its words, in order, with runs of whitespace around them and a non-empty run between any two words. |
| Text.WordsOfWeave | src/document_processor.py:279 | The words are unique: any words without whitespace that take the text apart in that way are the words `split()` gives. |
| Text.SplitOn | src/google_docs_processor.py:76-77 | `split(sep)` yields at least one part. No part contains `sep`, and joining the parts with `sep` gives back the input. |
| Text.SplitLeftmost | src/google_docs_processor.py:76-77 | `split(sep)` cuts at the leftmost occurrences: in the text that remains from each part on, the first `sep` sits right after that part. Together with `SplitOn` this fixes the parts uniquely. |
| Text.IndexFrom | src/document_processor.py:292 | The first occurrence of a substring from a position on, or none, which is what `in` tests. |
| OrderedDict.Put | src/document_processor.py:143-146 | `d[k] = v` stores `v`. A present key keeps its place; a new key is appended last. |
| OrderedDict.Remove | src/document_processor.py:332-336 | `del d[k]` drops only `k` when it is present. An absent key leaves the dictionary unchanged. |
| OrderedDict.RemoveKeepsOrder | src/document_processor.py:332-336 | After `del`, the other keys keep their relative order. |
| OrderedDict.PutTwice | src/document_processor.py:143-148 | A second assignment to a key leaves what that assignment alone would, which is how the record's `chunks_count` is filled in after it is stored. |
| Paths.Basename | src/document_processor.py:134 | `os.path.basename` holds no `/` and is the part of the path after its last `/`. |
| Paths.ExtensionNonEmpty | src/document_processor.py:174 | `os.path.splitext(...)[1]` is non-empty exactly when the base name has a `.` after a character other than `.`. It then starts at the last `.` of the base name. A name without a dot, or with only leading dots, has none. |
| Paths.ExtensionOfName | src/document_processor.py:174 | A file named `stem.suffix` has extension `.suffix`, whatever directory it is in. |
| Paths.BasenameAfterDirectory | src/document_processor.py:134 | The base name of `dir/name` is `name`. |
| Ingest.SupportedIffReadable | src/document_processor.py:93-106 | `get_supported_formats` lists exactly the lower-cased extensions that `_extract_text` has a reader for, given which libraries imported. |
| Ingest.ExtractFailsIff | src/document_processor.py:172-196 | Extraction gives nothing exactly when the lower-cased extension is unsupported, or when it is `.txt` and the bytes are not UTF-8. |
| Ingest.IngestedText | src/document_processor.py:119-130 | Ingestion goes on exactly for an existing file whose extracted text is not empty, and with that text. |
| Ingest.BlankTextRecord | src/document_processor.py:127-148 | A whitespace-only text is still stored, with 0 chunks. |
| Ingest.Summaries | src/document_processor.py:319-327 | `list_documents` gives one summary per id, in order, with the record's fields. |
| Ingest.ListingAfterPut | src/document_processor.py:143-148 | After storing a new document it is listed last. Storing one again keeps its place and shows the new record. |
| Ingest.ListingAfterRemove | src/document_processor.py:332-333 | Removing a document drops exactly its summary and keeps the other summaries in order. |
| Ingest.MergeEntries | src/document_processor.py:65-70 | After the load loop an id has chunks when it had them before, or when it is listed in the metadata and has a chunk file. For listed ids the file wins. |
| Ingest.MergeKeys | src/document_processor.py:66-71 | Loading into an empty store keeps exactly the ids that have a chunk file, in metadata order; ids without a chunk file are skipped. |
| Ingest.WithFile | src/document_processor.py:67-69 | The ids kept are exactly the metadata ids that have a chunk file. |
| Ingest.ReloadRestores | src/document_processor.py:55-91 | Saving, then loading into a fresh processor, gives back every document's chunks in the documents' order, when every document has chunks. |
| Ingest.ReloadEntries | src/document_processor.py:66-71 | When every saved chunk list is in its file, loading restores exactly those chunk lists. |
| Ingest.ReloadKeys | src/document_processor.py:66-71 | When every document has a chunk file, the loaded chunk lists are listed in the documents' order. |
| Ingest.WithFileAll | src/document_processor.py:67-69 | When every id has a chunk file, no id is skipped. |
| Retrieval.TokensOfQuery | src/document_processor.py:279 | The lower-cased query is its tokens, in order, with runs of whitespace between them. |
| Retrieval.TokensUnique | src/document_processor.py:279 | No other sequence of whitespace-free words takes the lower-cased query apart that way. |
| Retrieval.Score | src/document_processor.py:288-293 | A score never exceeds the number of query tokens. |
| Retrieval.ScoreZero | src/document_processor.py:288-295 | A chunk scores 0 exactly when no query token occurs in its lower-cased text. |
| Retrieval.ScoreAppend | src/document_processor.py:291-293 | The score adds up over the tokens, so a token repeated in the query counts each time. |
| Retrieval.ScoreFull | src/document_processor.py:291-293 | A chunk containing every token scores the number of tokens. |
| Retrieval.CandidateMembers | src/document_processor.py:282-301 | The kept hits are exactly the chunks of the stored documents that score above 0. Each carries its score and its document's file name, which is "Unknown" when the document has no record. |
| Retrieval.HitsOfMembers | src/document_processor.py:286-301 | The same, for the chunks of one document. |
| Retrieval.HitsOverMembers | src/document_processor.py:282-301 | The same, over a list of documents. |
| Retrieval.RemovedNotRetrieved | src/document_processor.py:335-336 | Once a document's chunks are deleted, nothing of that document can be retrieved. |
| Retrieval.Insert | src/document_processor.py:304 | One insertion step of the sort loses and adds no hit. |
| Retrieval.InsertDescending | src/document_processor.py:304 | Inserting into a descending ranking keeps it descending. |
| Retrieval.Ranked | src/document_processor.py:304 | The ranking is a permutation of the hits, in descending score. |
| Retrieval.RankedStable | src/document_processor.py:304 | The sort is stable: hits of equal score stay in document order, then chunk order. |
| Retrieval.RankingUnique | src/document_processor.py:304 | Two descending sequences that agree on the hits of every score are equal. |
| Retrieval.StableSortIsRanked | src/document_processor.py:304 | Any stable descending arrangement of the hits is `Ranked`, so `Ranked` is the sort Python performs. |
| Retrieval.Take | src/document_processor.py:308 | `s[:n]`, negative `n` included: the right length, and a prefix. |
| Retrieval.Blocks | src/document_processor.py:307-309 | One block `From document '<filename>':\n<text>\n` per selected hit, in order. |
| Retrieval.SelectedAreCandidates | src/document_processor.py:304-309 | Every rendered hit is a real, positively scored chunk of a stored document. |
| Retrieval.SelectedAreTop | src/document_processor.py:304-308 | At most `max_chunks` hits are rendered. They open the ranking, and no hit left out outscores a rendered one. |
| Retrieval.ContextEmpty | src/document_processor.py:273-311 | The context is `""` exactly when there are no documents or nothing is selected. |
| DocumentStore.StoredChunksAreCandidates | src/document_processor.py:143-148 | After a text is stored, each of its chunks that contains a query token can be retrieved under the document's id, with its score. |
| DocumentStore.SavedIsConsistent | src/document_processor.py:77-91 | Right after a save, the metadata file holds the records and every chunk list is in its file. |
| DocumentStore.DocumentProcessor.constructor | src/document_processor.py:36-53 | The processor starts empty and not loaded, whatever the storage directory holds. |
| DocumentStore.DocumentProcessor.LoadDocuments | src/document_processor.py:55-75 | Only the first call changes anything. The records become those of the metadata file, and each listed document with a chunk file gets those chunks. With no metadata file nothing changes. Consistency is kept. |
| DocumentStore.DocumentProcessor.SaveDocuments | src/document_processor.py:77-91 | The metadata file becomes the records. Each document's chunk file becomes its chunks. Other chunk files are untouched. |
| DocumentStore.DocumentProcessor.StoreDocument | src/document_processor.py:133-150 | The stored record has the base name, the path, the size, the time and the text's length. Its `chunks_count` is the number of chunks stored under the same id. Both dictionaries are saved. Nothing else changes, and consistency is kept. |
| DocumentStore.DocumentProcessor.ProcessDocument | src/document_processor.py:108-160 | A missing file, a failed extraction or an empty text gives `None` and changes nothing. Otherwise the id is the digest of the file's bytes. The record and the chunks are stored under it, where an old entry keeps its place. The record's `content_length` is the text's length, and its `chunks_count` is the number of chunks stored. Everything is saved. |
| DocumentStore.DocumentProcessor.RemoveDocument | src/document_processor.py:329-347 | The id leaves both dictionaries and the others stay as they were. Its chunk file is deleted, everything is saved, and the result is `True`, even for an unknown id. |
| DocumentStore.DocumentProcessor.ClearAllDocuments | src/document_processor.py:349-353 | Both dictionaries become empty and are saved. The chunk files stay on disk. |
| DocumentStore.DocumentProcessor.ListDocuments | src/document_processor.py:313-327 | It loads when that has not happened yet, then returns one summary per document in insertion order. |
| DocumentStore.DocumentProcessor.GetDocumentContext | src/document_processor.py:263-311 | The nested scoring loops, the sort and the rendering loop give exactly `Context`: `""` without documents, otherwise the first `max_chunks` blocks of the ranking joined by `\n`. `max_chunks` defaults to 3. |
| DocumentStore.CollectHits | src/document_processor.py:282-303 | The outer loop over `document_chunks` collects exactly `Candidates`: the scoring chunks of every document, in dictionary order and then chunk order. |
| DocumentStore.RenderBlocks | src/document_processor.py:306-309 | The rendering loop yields exactly `Blocks` of the selected hits. |
| DocumentStore.Summarize | src/document_processor.py:318-327 | The comprehension of `list_documents` yields exactly `Listing`: one summary per document, in insertion order. |
| DocumentStore.ScoreChunks | src/document_processor.py:286-301 | The inner loops keep exactly the chunks of one document that score above 0, with their scores, in chunk order. |
| GoogleDocs.ValidateGoogleDocUrl | src/google_docs_processor.py:49-60 | A recognised URL starts with `https://`, and its type is one of the three types. An `https://` URL that contains `docs.google.com/document/` is `docs`. Otherwise, one with `docs.google.com/spreadsheets/` is `sheets`. Otherwise, one with `docs.google.com/presentation/` is `slides`. `None` means the scheme is not `https://` or none of the three paths occurs. |
| GoogleDocs.ExtractDocIdFromUrl | src/google_docs_processor.py:62-95 | An extracted id never contains `/`. |
| GoogleDocs.ExtractDocIdSpec | src/google_docs_processor.py:74-95 | The id is the text after the first `/document/d/`, failing that after the first `/spreadsheets/d/`, failing that after the first `/presentation/d/`, up to the next `/` or the end. With none of the three markers there is no id. |
| GoogleDocs.IdAfterFirstMarker | src/google_docs_processor.py:76-79 | `url.split(marker)[1].split('/')[0]` is the text after the first marker, up to the next `/`. |
| GoogleDocs.FirstSegment | src/google_docs_processor.py:78 | The text before the first `/` is a slash-free prefix followed by `/` or by the end. |
| GoogleDocs.FirstSegmentUnique | src/google_docs_processor.py:78 | That prefix is the only one with those properties. |
| GoogleDocs.GetExportUrl | src/google_docs_processor.py:97-135 | It succeeds exactly for the type and format pairs listed in `supported_export_formats` (lines 18-22), so the two tables agree. The URL is then the type's base URL, the id, and `/export?format=<format>`. A failure carries the message `Unsupported doc_type: <type> or format: <format>`. The format defaults to `pdf`. |
| GoogleDocs.DocUrlFacts | src/google_docs_processor.py:75 | A URL made of a base URL, an id without `/` and a suffix whose only `/` is its first character starts with `https://` and the base URL. Its only `/` characters are those of the base URL plus the one after the id. |
| GoogleDocs.RecogniseDocUrl | src/google_docs_processor.py:49-60 | Such a URL of each type is recognised as that type. |
| GoogleDocs.ReadBackDocUrl | src/google_docs_processor.py:74-91 | The id read out of such a URL is the id it was built from. |
| GoogleDocs.EditUrl | src/google_docs_processor.py:74-91 | For the `<base URL><id>/edit` form named in the comments at lines 75, 81 and 87, the URL is recognised as its type and the id is read back. |
| GoogleDocs.ValidateExportUrl | src/google_docs_processor.py:49-60 | The export URL of each type is recognised as that type. |
| GoogleDocs.ExtractExportUrl | src/google_docs_processor.py:74-95 | For an id without `/`, the id read out of its export URL is that id. |
| GoogleDocs.ExportUrlFacts | src/google_docs_processor.py:135 | An export URL starts with its base URL and `https://`, and its only `/` characters are those of the base URL plus the one that opens the endpoint. |

## Left out

- Everything graphical: the upload dialogs, the voice assistant, its Ollama call and its prompt
  assembly.
- The background threads that call `process_document`. The model is sequential.
- The PDF, Word and spreadsheet readers, MD5 and UTF-8 decoding. They are foreign code, so they
  are parameters of the model (`Ingest.Library`). Only the choice of reader is modelled: by the
  lower-cased extension, with `read_excel` or `read_csv` picked by a case-sensitive suffix test.
- The fallback id from the MD5 of the path in `_generate_doc_id`. It is taken only when an
  existing file cannot be read, and the model does not model read errors.
- File-system and JSON errors. Exceptions raised while reading, writing or parsing are printed
  and swallowed by the source. The model has no failing I/O, a metadata file is a well-formed
  dictionary, and a record read from disk has all its fields. The `.get(..., default)` defaults
  of `list_documents` are therefore never used.
- The creation of the storage directory, and the clock. The ingestion time is a parameter.
- `Text.Lower` lower-cases ASCII letters only. Python's `str.lower` also maps other letters.
  This does not change the extension dispatch, but it does change which query tokens match
  non-ASCII text.
- `Text.IsSpace` is the set of characters `str.isspace` accepts. The newline translation done
  when a `.txt` file is read is part of the decoding parameter.
- The 50 MB limit. It is checked in the upload dialog's thread, not in `process_document`.
- `download_google_doc` and `process_google_doc_url` (network access and temporary files), and
  the analytics module.
- `get_storage_stats`, `get_document_info`, `remove_multiple_documents` and
  `cleanup_orphaned_files`. Other files call them, but `DocumentProcessor` does not define them.
- `GoogleDocs.ExtractExportUrl`: the round trip is proved for ids without `/`. An id with `/` is
  cut at its first `/`.
