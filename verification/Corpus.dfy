/** Chunks of documents, with the fields that ranking and context read. */
module Corpus {
  import opened Bytes
  import opened Text

  datatype Metadata = Metadata(chunkId: Text, documentId: Text, registeredId: Option<Text>, contentDigest: Digest)

  datatype Chunk = Chunk(metadata: Metadata, text: Str, previous: Option<Text>, next: Option<Text>)
}
