/** The value types shared by the engine and its callers (document.h). */
module Documents {

  /** `DocumentStatus`: an opaque tag stored with every document. */
  datatype Status = Actual | Irrelevant | Banned | Removed

  /** `Document`: one search hit. */
  datatype Document = Document(id: int, relevance: real, rating: int)

  /** `SearchServer::DocumentData`: what the server keeps per live document. */
  datatype DocumentData = DocumentData(rating: int, status: Status)
}
