/** The values the document store keeps: document records, chunks and content digests. */
module Records {

  /** One byte of a file's content. */
  type Byte = b: int | 0 <= b < 256

  predicate IsHexDigit(c: char) {
    '0' <= c <= '9' || 'a' <= c <= 'f'
  }

  /** A document id: the first 16 hex digits of the MD5 digest of the file's bytes. */
  type DocId = s: string | |s| == 16 && forall i :: 0 <= i < |s| ==> IsHexDigit(s[i])
    witness "0000000000000000"

  /**
   * One entry of a document's chunk list: the stripped text of a window and the window's
   * `[start, end)` offsets into the extracted text (`end` may lie past the end of the text).
   */
  datatype Chunk = Chunk(text: string, start: nat, end: nat, length: nat)

  /** The metadata kept per document, as written at ingestion. */
  datatype DocRecord = DocRecord(
    filename: string,
    filepath: string,
    size: nat,
    uploadedAt: string,
    contentLength: nat,
    chunksCount: nat)
}
