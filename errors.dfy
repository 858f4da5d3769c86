/** The exceptions the search engine throws, as values. */
module Errors {

  datatype Error =
    | NegativeDocumentId     // invalid_argument: document id below zero
    | RepeatedDocumentId     // invalid_argument: id already present
    | InvalidDocumentWord    // invalid_argument: control character in a document word
    | InvalidStopWord        // invalid_argument: control character in a stop word
    | DoubleMinus            // invalid_argument: query word of the form "--w"
    | EmptyMinusWord         // invalid_argument: query word "-"
    | InvalidQueryWord       // invalid_argument: control character in a query word
    | DocumentNotFound       // out_of_range: documents_.at on an unknown id
    | InvalidPageSize        // invalid_argument: page size not above zero

  datatype Result<T> = Ok(value: T) | Err(error: Error)

  datatype Outcome = Pass | Fail(error: Error)
}
