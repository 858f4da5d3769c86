# cpp-search-server, modelled in Dafny

This project models the core of a small full-text search server written in C++. It proves properties of that model. The model covers these parts of the server:

- **Tokenisers.** `SplitIntoWords`, `SplitIntoWordsView` and `MakeUniqueNonEmptyStrings` split text on the space character and build stop-word sets.
- **The `SearchServer` inverted index.** It holds two mirrored posting maps: word -> document -> tf and document -> word -> tf. It also holds the live documents with their average rating and status, and the ordered collection of document ids.
  - Adding a document validates the id and the words, computes the tf of each word and posts it in both maps.
  - Queries are parsed into sets of plus words and minus words. The rules cover stop words, a leading `-`, double minus, a bare `-` and control characters.
  - `FindAllDocuments` scores every document by tf * idf over the plus words. It keeps the documents the filter accepts and drops every document that posts a minus word.
  - `FindTopDocuments` sorts the scored documents by relevance, with ties within 1e-6 broken by rating, and keeps the first five.
  - `MatchDocument` reports which plus words a document contains, or none when it contains a minus word.
  - `RemoveDocument` purges a document from both maps.
- **The duplicate detector.** `RemoveDuplicates` removes every document whose word set equals the word set of a document earlier in id order.
- **The paginator.** `Paginator` and `Paginate` cut a range into pages of `page_size` elements.
- **The request window.** `RequestQueue` records the results of the last 1440 searches and counts those that found nothing.

The files:

- `errors.dfy` holds the exceptions the source throws, as an `Error` datatype, with `Result` and `Outcome`.
- `ordered_set.dfy` models `std::set` as a strictly sorted sequence.
- `string_processing.dfy` holds the tokenisers.
- `documents.dfy` holds `Document`, `DocumentStatus` and `DocumentData`.
- `words.dfy` holds word validity, stop-word removal and the average rating.
- `inverted_index.dfy` holds the `+=` updates of the posting maps, the term frequencies, the mirroring invariant and the purge.
- `query.dfy`, `retrieval.dfy` and `ranking.dfy` hold the query semantics, the relevance semantics and the sort order.
- `search_server.dfy` holds the `SearchServer` class.
- `remove_duplicates.dfy`, `paginator.dfy` and `request_queue.dfy` hold the remaining components.

Operations that update state in place are methods of `SearchServer` and `RequestQueue`. Their loops are written out with invariants. Each method is proved against a specification function: `Words`, `ParseTokens`, `AddPostings`, `Purge`, `IsAllDocuments`, `IsTopOf`, `Marked` and `Window`. The properties of those functions are proved as lemmas.

Some modelling choices:

- Relevances are exact reals. The natural logarithm is a parameter `ln`.
- Integer division of the average rating truncates toward zero, as in C++.
- `SplitIntoWords` keeps the empty tokens that leading or consecutive spaces produce: string_processing.cpp:8-10 pushes the current word at every space. Query parsing skips them; document text indexes them.
- The ids are kept in an ordered set, as search_server.cpp:29 uses `insert` on them.

## Model

| member | source | states |
|---|---|---|
| StringProcessing.FindChar | search-server/string_processing.cpp:28 | `find(' ', pos)`: the first index at or after `from` holding the character, or -1 when the rest holds none |
| StringProcessing.PiecesCount | search-server/string_processing.cpp:23-36 | the view splitter yields one more piece than the text has spaces |
| StringProcessing.PiecesJoin | search-server/string_processing.cpp:23-36 | joining the pieces with single spaces gives back the text exactly (round trip) |
| StringProcessing.PiecesHaveNoSpaces | search-server/string_processing.cpp:28-29 | no piece contains a space |
| StringProcessing.PiecesOfSpaceFree | search-server/string_processing.cpp:28-31 | a text without spaces is a single piece |
| StringProcessing.PiecesSnoc | search-server/string_processing.cpp:7-15 | appending a character extends the last piece, or opens a new empty piece for a space |
| StringProcessing.PiecesAtFirstSpace | search-server/string_processing.cpp:28-34 | the first piece ends at the first space and the rest is split from the next position |
| StringProcessing.LastPieceEmpty | search-server/string_processing.cpp:16-18 | the last piece is empty iff the text is empty or ends in a space |
| StringProcessing.SplitIntoWords | search-server/string_processing.cpp:3-21 | the character loop yields `Words(text)`: the pieces between spaces, without a trailing empty piece |
| StringProcessing.SplitIntoWordsView | search-server/string_processing.cpp:23-36 | the `find` loop yields `Pieces(str)`, the trailing empty piece included |
| StringProcessing.WordsArePieces | search-server/string_processing.cpp:16-18 | the two splitters agree except for the final empty piece of a text that is empty or ends in a space |
| StringProcessing.WordsHaveNoSpaces | search-server/string_processing.cpp:8-14 | no word contains a space |
| StringProcessing.WordsJoin | search-server/string_processing.cpp:3-21 | for a text not ending in a space, joining the words with spaces gives back the text |
| StringProcessing.WordsOfSingleWord | search-server/string_processing.cpp:3-21 | the empty text has no words, and a space-free text is one word |
| StringProcessing.LeadingSpaceGivesEmptyToken | search-server/string_processing.cpp:8-10 | a leading space yields an empty first word |
| StringProcessing.MakeUniqueNonEmptyStrings | search-server/string_processing.h:10-20 | the result holds exactly the non-empty strings of the input, and no more elements than the input |
| WordRules.IsValidWord | search-server/search_server.cpp:91-96 | a word is valid iff none of its characters is below the space character |
| WordRules.WithoutStopWords | search-server/search_server.cpp:103-112 | the kept words are exactly the input words that are not stop words, never more of them |
| WordRules.WithoutStopWordsCounts | search-server/search_server.cpp:103-112 | each non-stop word keeps its multiplicity, and each stop word has none |
| WordRules.WithoutStopWordsSnoc | search-server/search_server.cpp:105-110 | one more word appends it unless it is a stop word |
| WordRules.Sum | search-server/search_server.cpp:121 | defines `std::accumulate` from 0 over the ratings, left to right, without overflow; its meaning is stated through `WordRules.ComputeAverageRating` |
| WordRules.ComputeAverageRating | search-server/search_server.cpp:114-123 | no ratings give 0; otherwise the average is the sum divided by the count, truncated toward zero, with the bounds stated for either sign |
| WordRules.TruncationBounds | search-server/search_server.cpp:122 | C++ `int` division by a positive count: bounds for a non-negative and for a negative dividend |
| WordRules.AverageRatingExamples | search-server/test_example_functions.cpp:139-158 | the averages of the rating cases, negative averages rounded toward zero |
| InvertedIndex.CountIsMultiplicity | search-server/search_server.cpp:24-28 | the number of `+=` steps for a word is its multiplicity in the kept words |
| InvertedIndex.CountAbsent | search-server/search_server.cpp:24-28 | an absent word is counted zero times |
| InvertedIndex.TallyAt | search-server/search_server.cpp:24-28 | the folded `+=` of `1/N` has an entry exactly for the words present, each worth count * (1/N) |
| InvertedIndex.Ratio | search-server/search_server.cpp:23-27 | count * (1/N) is count/N and lies in (0, 1] |
| InvertedIndex.CountBounds | search-server/search_server.cpp:24-28 | a count is at most the number of words and positive for a present word |
| InvertedIndex.PostWords | search-server/search_server.cpp:24-26 | defines the word -> document `+=` loop as a left fold over the kept words; `InvertedIndex.PostWordsAt` and `InvertedIndex.PostWordsFresh` state what it leaves |
| InvertedIndex.PostDocument | search-server/search_server.cpp:24-27 | defines the document -> word `+=` loop as a left fold; `InvertedIndex.PostDocumentFresh` states what it leaves |
| InvertedIndex.TermFrequencies | search-server/search_server.cpp:23-28 | tf has an entry exactly for the words present, equal to count/N and in (0, 1] |
| InvertedIndex.FrequencyAt | search-server/search_server.cpp:23-28 | the `+=` fold with `inv = 1/N` yields exactly these term frequencies |
| InvertedIndex.FrequencyOf | search-server/search_server.cpp:23-28 | the same term frequency, for one word |
| InvertedIndex.PostWordsAt | search-server/search_server.cpp:24-28 | for a word not yet posting the id, the loop leaves the word's postings with `id -> tf` added, and other words unchanged |
| InvertedIndex.PostWordsFresh | search-server/search_server.cpp:24-28 | for a new id, the word -> document `+=` loop equals adding one posting per term frequency |
| InvertedIndex.PostDocumentFresh | search-server/search_server.cpp:24-28 | for a new id and at least one word, the document -> word loop stores the term frequency map under the id |
| InvertedIndex.AddKeepsMirrored | search-server/search_server.cpp:14-31 | adding a new document's frequencies to both maps keeps them mirrored with equal tf, and keeps empty inner maps out |
| InvertedIndex.PurgeStep | search-server/search_server.cpp:86-89 | purging one word at a time adds up to purging the document's word set |
| InvertedIndex.PurgeMeaning | search-server/search_server.cpp:86-89 | after the purge exactly the postings of other documents or other words remain, with their values, and no word is left with an empty map |
| InvertedIndex.RemoveKeepsMirrored | search-server/search_server.cpp:86-89 | removing a document keeps the maps mirrored and without empty entries, and leaves no posting of the id |
| OrderedSet.Insert | search-server/search_server.cpp:29 | `std::set::insert`: the result is sorted and adds the element once; an element already present leaves the set as it is |
| OrderedSet.Remove | search-server/search_server.cpp:86-89 | `std::set::erase`: every other element stays |
| OrderedSet.RemoveKeepsSorted | search-server/search_server.cpp:86-89 | erasing keeps the order |
| OrderedSet.ToSorted | search-server/remove_duplicates.cpp:14 | iterating a `std::set` visits its elements in increasing order, each once |
| OrderedSet.SortedUnique | search-server/search_server.cpp:136-163 | two sorted sequences with the same elements are equal: a set has one iteration order |
| OrderedSet.SortedLength | search-server/remove_duplicates.cpp:24-27 | a sorted sequence has as many positions as it has distinct elements |
| OrderedSet.StringLess | search-server/search_server.h:53-54 | defines `std::less<std::string>`, lexicographic order with a proper prefix first, which orders the plus and minus sets; `OrderedSet.StringLessIsStrictTotalOrder` proves it a strict total order |
| OrderedSet.StringLessIsStrictTotalOrder | search-server/search_server.cpp:153-160 | `std::less<std::string>` (lexicographic) is a strict total order |
| QueryParsing.ParseQueryWord | search-server/search_server.cpp:125-134 | a leading `-` sets the minus flag and is stripped once, nothing else is changed, and the stop flag is set iff the data is a stop word |
| QueryParsing.CheckQueryWord | search-server/search_server.cpp:145-151 | defines the three checks in source order: a data starting with `-` (double minus), a bare `-`, then a control character; `QueryParsing.TokenExamples` and `QueryParsing.ParseTokensOutcome` state their effect |
| QueryParsing.AddToken | search-server/search_server.cpp:141-160 | one token keeps the plus and minus sets sorted |
| QueryParsing.AddTokenMeaning | search-server/search_server.cpp:141-160 | a token succeeds iff it passes the checks, and fails with the first failing check's error; it adds its data to the minus set (leading `-`) or the plus set iff it is not a stop word |
| QueryParsing.ParseTokens | search-server/search_server.cpp:136-163 | the parsed plus and minus sets are sorted |
| QueryParsing.ParseTokensStopsAtError | search-server/search_server.cpp:145-151 | once a prefix of the tokens fails, the whole query fails with that error: the first `throw` ends parsing |
| QueryParsing.ParseTokensOutcome | search-server/search_server.cpp:136-163 | a query parses iff every token passes; a failure carries the error of the first failing token |
| QueryParsing.ParseTokensWords | search-server/search_server.cpp:153-160 | `w` is a plus word iff some non-empty token without a leading `-` equals it and it is not a stop word; `w` is a minus word iff some token is `-w` and `w` is not a stop word |
| QueryParsing.ParseTokensWord | search-server/search_server.cpp:153-160 | the same, for one word |
| QueryParsing.AddTokenWord | search-server/search_server.cpp:153-160 | one token adds exactly its own word to the plus or minus set |
| QueryParsing.TokenExamples | search-server/search_server.cpp:145-151 | `--cat`, `-` and a control character are refused with their errors; a word in both sets and a stop word in both sets behave as parsed |
| Ranking.BeforeAsymmetric | search-server/search_server.h:91-98 | the comparator never puts two documents each before the other |
| Ranking.Before | search-server/search_server.h:91-98 | defines the comparator: within 1e-6 of relevance the higher rating first, otherwise the higher relevance first; `Ranking.BeforeAsymmetric` and `Ranking.BeforeNotTransitive` state its properties |
| Ranking.BeforeNotTransitive | search-server/search_server.h:91-98 | the comparator is not transitive: three documents form a cycle |
| Ranking.RankOrderNeighbours | search-server/search_server.h:91-98 | in rank order, neighbours within 1e-6 have non-increasing rating, and otherwise strictly decreasing relevance |
| Ranking.SortByRank | search-server/search_server.h:91-98 | the sort puts the array in rank order and permutes it |
| Ranking.MoveLeft | search-server/search_server.h:91-98 | one insertion step extends the sorted prefix by one element and permutes the array |
| Ranking.SwapKeepsOrder | search-server/search_server.h:91-98 | one swap keeps the inner loop's order invariant |
| Ranking.InsertedInOrder | search-server/search_server.h:91-98 | when the moving element stops, the prefix is in rank order |
| Ranking.TopProperties | search-server/search_server.h:99-101 | the top hits number `min(5, matched)` and are in rank order, each a matched document, as a sub-multiset |
| Retrieval.Idf | search-server/search_server.cpp:165-168 | defines `ComputeWordInverseDocumentFreq`: `ln` of the document count over the number of documents posting the word; `Search.PostingsAreLive` proves that ratio is at least 1 and the divisor non-zero |
| Retrieval.Score | search-server/search_server.h:109-120 | defines a document's relevance: the sum of tf * idf over the plus words that post it, added in plus-word order; `Retrieval.ScoreWithoutHits` and `Retrieval.PlusStep` state its properties |
| Retrieval.AllDocumentsUnique | search-server/search_server.h:105-136 | the result of `FindAllDocuments` is determined uniquely by the index, the query and the filter |
| Retrieval.MinusWordExcludes | search-server/search_server.h:122-129 | no document found posts a minus word |
| Retrieval.HitsAnySnoc | search-server/search_server.h:109-120 | a document is hit by one more word iff it was hit before or posts the new word |
| Retrieval.ScoreWithoutHits | search-server/search_server.h:109-120 | a document that posts no plus word has relevance zero |
| Retrieval.WordStepNext | search-server/search_server.h:114-119 | one posting adds tf * idf to a document the filter keeps, and nothing otherwise |
| Retrieval.PlusStep | search-server/search_server.h:113-119 | a plus word with postings adds its tf * idf to each accepted document |
| Retrieval.PlusSkip | search-server/search_server.h:110-112 | a plus word without postings changes nothing |
| Retrieval.MinusStart | search-server/search_server.h:122 | the minus loop starts from the plus accumulator |
| Retrieval.MinusStep | search-server/search_server.h:122-129 | a minus word erases every document posting it |
| Retrieval.Emitted | search-server/search_server.h:131-135 | emitting the accumulator in key order with stored ratings gives exactly `IsAllDocuments` |
| Search.DocumentFrequencies | search-server/search_server.cpp:22-28 | the tf stored for a new document: an entry exactly for each kept word, equal to count / number of kept words |
| Search.IsIndex | search-server/search_server.h:57-61 | defines the server invariant: valid non-empty stop words, mirrored posting maps without empty entries, only live documents posted, no stop word or invalid word posted, non-negative ids; every constructor and every public operation except `Search.SearchServer.AddDocumentAsWritten` preserves it |
| Search.Weight | search-server/search_server.cpp:23 | defines `inv_word_count`, one over the number of kept words |
| Search.PostedFrequencies | search-server/search_server.cpp:24-28 | the two `+=` loops for a new id add these frequencies to both maps; no kept words leave document -> word unchanged |
| Search.AddNoPostings | search-server/search_server.cpp:24-28 | adding no frequencies leaves the posting map unchanged |
| Search.AddKeepsIndex | search-server/search_server.cpp:14-31 | a new non-negative id with valid non-stop words keeps the index invariant and posts exactly its frequencies |
| Search.IndexAfterAdd | search-server/search_server.cpp:24-30 | storing a non-empty frequency map for a new id keeps the index invariant |
| Search.RemoveKeepsIndex | search-server/search_server.cpp:86-89 | removal keeps the index invariant and leaves no posting of the id |
| Search.PostingsAreLive | search-server/search_server.cpp:165-168 | every posted document is live, so `documents_.at` cannot throw, and idf's ratio is at least 1 |
| Search.FrequenciesMirrorPostings | search-server/search_server.cpp:77-84 | a document's word map holds exactly the words posting it, with the same tf |
| Search.StopWordsNeverPosted | search-server/search_server.cpp:103-112 | a stop word never has a posting |
| Search.FirstInvalid | search-server/search_server.cpp:24-28 | the position of the first invalid word, every word before it being valid |
| Search.DocumentFrequenciesExample | search-server/test_example_functions.cpp:287-310 | the tf of a four-word document with one word twice is 0.5, 0.25 and 0.25 |
| Search.FailedAddLeavesOrphanPosting | search-server/search_server.cpp:22-28 | on an empty server without stop words, the text "cat \x01" keeps two words; the loop posts "cat" for document 0 and stops at the second word, which breaks the index invariant, and the posting names a document that is not stored, so a search that looks it up has nothing to find |
| Search.OrphanExampleWords | search-server/search_server.cpp:22 | the kept words of "cat \x01" on a server without stop words are "cat" and the word holding character 1 |
| Search.StatusIs | search-server/search_server.cpp:36-38 | defines the filter of `FindTopDocuments(raw_query, status)`: a document is kept iff its status equals the given one |
| Search.SearchServer.constructor | search-server/search_server.cpp:4 | a server with the given valid stop words and no documents |
| Search.SearchServer.FromStopWords | search-server/search_server.h:77-83 | the container constructor: stop words are the non-empty strings given; any invalid one is refused with `InvalidStopWord` |
| Search.SearchServer.FromStopWordsText | search-server/search_server.cpp:6-12 | the string constructor: its stop words are the non-empty words of the text, with the same refusal |
| Search.SearchServer.SplitIntoWordsNoStop | search-server/search_server.cpp:103-112 | the words of the text that are not stop words, in order |
| Search.SearchServer.DropStopWords | search-server/search_server.cpp:105-110 | the filtering loop removes exactly the stop words |
| Search.SearchServer.AddDocument | search-server/search_server.cpp:14-31 | errors for a negative id, a repeated id and an invalid word, leaving the server unchanged; a new non-negative id with valid words is accepted, and then both maps gain the document's tf, the document is stored with its average rating and status, and its id is added |
| Search.SearchServer.StoreDocument | search-server/search_server.cpp:24-30 | posts the frequencies, stores the data and inserts the id, keeping the invariant |
| Search.SearchServer.AddDocumentAsWritten | search-server/search_server.cpp:14-31 | the source's order: the words before the first invalid one are posted in both maps before the refusal; the document is stored and its id added only if all words are valid, and then the class invariant holds |
| Search.SearchServer.IndexWords | search-server/search_server.cpp:24-28 | the `+=` loop stops at the first invalid word, leaving the postings of the words before it |
| Search.SearchServer.IndexValidWords | search-server/search_server.cpp:24-28 | with all words valid, the loop posts every word in both maps |
| Search.SearchServer.ParseQuery | search-server/search_server.cpp:136-163 | parses the split query text as `ParseTokens` specifies |
| Search.SearchServer.ParseQueryTokens | search-server/search_server.cpp:139-161 | the token loop computes `ParseTokens`, skipping empty tokens and stopping at the first error |
| Search.SearchServer.ParseQueryToken | search-server/search_server.cpp:143-160 | one non-empty token: its checks in source order, then insertion, as `AddToken` |
| Search.SearchServer.MatchDocument | search-server/search_server.cpp:46-70 | query errors propagate; an unknown id is refused; otherwise the status is returned, with the sorted plus words that post the document, or none if some minus word posts it |
| Search.SearchServer.MatchedPlusWords | search-server/search_server.cpp:52-59 | the plus words posting the document, sorted |
| Search.SearchServer.PostsMinusWord | search-server/search_server.cpp:60-68 | true iff some minus word posts the document |
| Search.SearchServer.FindAllDocuments | search-server/search_server.h:105-136 | the accepted documents posting a plus word and no minus word, in id order, with relevance the sum of tf * idf and their stored rating |
| Search.SearchServer.PlusRelevance | search-server/search_server.h:109-120 | after the plus loop, the accumulator holds exactly the accepted documents posting some plus word, each with its score |
| Search.SearchServer.AddWordRelevance | search-server/search_server.h:114-119 | the inner loop over one word's postings |
| Search.SearchServer.EraseMinusWords | search-server/search_server.h:122-129 | after the minus loop, exactly the documents posting no minus word remain |
| Search.SearchServer.EraseAll | search-server/search_server.h:126-128 | erasing each key of a posting map removes exactly those keys |
| Search.SearchServer.FindTopDocuments | search-server/search_server.h:85-103 | query errors propagate; otherwise the result is the first five of a rank-ordered permutation of `FindAllDocuments` |
| Search.SearchServer.FindTopDocumentsByStatus | search-server/search_server.cpp:33-39 | the same, with the filter "status equals the given status" |
| Search.SearchServer.FindActualTopDocuments | search-server/search_server.cpp:41-44 | the same, with the `ACTUAL` status |
| Search.SearchServer.GetWordFrequencies | search-server/search_server.cpp:77-84 | an unknown id gives the empty map; otherwise the words posting the document, with their tf |
| Search.SearchServer.GetDocumentCount | search-server/search_server.cpp:72-75 | the number of document ids |
| Search.SearchServer.RemoveDocument | search-server/search_server.cpp:86-89 | for a live id, erases it from both maps, the documents and the ids, purging words left without postings; an unknown id changes nothing |
| Search.IdsCount | search-server/search_server.cpp:72-75 | with sorted ids matching the documents, the id count is the document count |
| Duplicates.CompareMapsKeys | search-server/remove_duplicates.cpp:3-10 | true iff the two maps have the same key set; the values play no part |
| Duplicates.MarkedByMeaning | search-server/remove_duplicates.cpp:17-21 | the inner loop marks a document iff it comes later than the outer one and has the same word set |
| Duplicates.MarkedMeaning | search-server/remove_duplicates.cpp:16-22 | a document is marked iff some document earlier in id order has the same word set |
| Duplicates.FirstOfGroupKept | search-server/remove_duplicates.cpp:16-22 | every marked document has an earlier twin that is not marked: the first document of each group stays |
| Duplicates.RemoveDuplicates | search-server/remove_duplicates.cpp:12-28 | removes exactly the marked documents in increasing id order; the survivors keep their words, rating and status, the count drops by the number removed, and no two survivors share a word set |
| Duplicates.RemoveAll | search-server/remove_duplicates.cpp:24-27 | `RemoveDocument` on each listed id removes exactly those documents, and the others keep their words, rating and status |
| Duplicates.MarkedAreLive | search-server/remove_duplicates.cpp:16-19 | only live documents are marked |
| Duplicates.MarkDuplicates | search-server/remove_duplicates.cpp:14-22 | the nested loops collect `Marked` |
| Duplicates.MarkLaterTwins | search-server/remove_duplicates.cpp:17-21 | the inner loop collects `MarkedBy` |
| Duplicates.RemovedCount | search-server/remove_duplicates.cpp:24-27 | removing distinct live ids lowers the document count by their number |
| Duplicates.NoTwinsRemain | search-server/remove_duplicates.cpp:16-22 | two distinct unmarked documents never share a word set |
| Pagination.NewPaginator | search-server/paginator.h:39-66 | at most one page of elements gives a single page; a positive page size gives full pages and a final partial page; otherwise `invalid_argument` |
| Pagination.Paginate | search-server/paginator.h:78-81 | the paginator over a whole container |
| Pagination.PageContents | search-server/paginator.h:6-10 | each page shows the elements from its begin to its end |
| Pagination.PageSizes | search-server/paginator.h:46-61 | pages lie within the range; full pages hold `page_size` elements and the last holds 1 to `page_size` |
| Pagination.PagesCover | search-server/paginator.h:46-61 | the pages shown in order are the whole container |
| Pagination.PrefixCover | search-server/paginator.h:48-54 | the first `m` full pages are the first `m * page_size` elements |
| Pagination.PageCount | search-server/paginator.h:46-61 | there are ceil(count / page_size) pages |
| Pagination.PageCountExamples | search-server/test_example_functions.cpp:252-274 | four results with page sizes 3, 2 and 1 make 2, 2 and 4 pages |
| Requests.Record | search-server/request_queue.cpp:6-8 | the record is flagged null iff the result is empty, and keeps the result |
| Requests.Window | search-server/request_queue.h:33 | the last `min(1440, n)` records of the history, oldest first |
| Requests.WindowSnoc | search-server/request_queue.cpp:8-11 | one more record appends to the window and drops its oldest record once it exceeds 1440 |
| Requests.CountNull | search-server/request_queue.cpp:26-28 | the null count is at most the number of records; it is zero iff no record is null, and full iff all are null |
| Requests.RequestQueue.constructor | search-server/request_queue.cpp:3 | an empty window over the given server |
| Requests.RequestQueue.Add | search-server/request_queue.cpp:5-12 | appends the record and pops the front past 1440 records; the window stays the last 1440 records |
| Requests.RequestQueue.AddFindRequest | search-server/request_queue.h:38-43 | returns the server's top documents and records them; a refused query throws before anything is recorded |
| Requests.RequestQueue.AddFindRequestByStatus | search-server/request_queue.cpp:14-18 | the same, with the status filter |
| Requests.RequestQueue.AddActualFindRequest | search-server/request_queue.cpp:20-24 | the same, with the `ACTUAL` status |
| Requests.RequestQueue.GetNoResultRequests | search-server/request_queue.cpp:26-28 | the number of kept records that found nothing, at most the window's size, and zero iff none did |
| Requests.CountNullAppend | search-server/request_queue.cpp:26-28 | counting over two parts of the window adds up |
| Requests.AddRecordCount | search-server/request_queue.cpp:5-12 | `Add` raises the no-result count by one for an empty result, and lowers it by one when the dropped record was empty |
| Requests.FullDayWithoutResults | search-server/request_queue.cpp:26-28 | a day of empty results counts 1440 no-result requests |

Proof helpers about arithmetic and sequences have no row: WordRules.FloorBounds, WordRules.ShiftProduct, WordRules.NegateProduct, InvertedIndex.OneMore, Pagination.MultiplyMonotone, Pagination.DivisionBetween, Ranking.SwapPermutes and Retrieval.Ids.

## Left out

- Concurrency is left out: `concurrent_map.h`, `process_queries` and the `std::execution` policy overloads. `RemoveDocument(id)` (search_server.cpp:86-89) delegates to `RemoveDocument(std::execution::seq, id)`, and the body of that policy overload is not part of this model.
- Search.SearchServer.RemoveDocument is therefore a model choice, not taken from code: it purges the document from both maps, the documents and the ids, erases words left without postings, and does nothing for an unknown id.
- Floating point is left out. Relevances and term frequencies are exact reals and `log` is the parameter `ln`, so rounding and the equality of nearly equal doubles are not modelled.
- Ranking.SortByRank is an insertion sort, not `std::sort`. The comparator is not transitive (`Ranking.BeforeNotTransitive`), so `std::sort` promises no order. The model claims only neighbour order and a permutation, and the order of ties may differ from `std::sort`'s.
- WordRules.ComputeAverageRating: `int` overflow of `std::accumulate` is not modelled; the sum is unbounded.
- Pagination.Paginate: the narrowing of its `size_t page_size` to `int` is not modelled. The page size is taken as the `int` the constructor sees.
- WordRules.IsValidWord and OrderedSet.StringLess work on Dafny characters, which are Unicode code points, while the source works on the bytes of a `std::string`. A character outside ASCII is one character here and several bytes there. Both treat exactly the codes 0 to 31 as invalid: a signed `char` makes bytes from 0x80 up negative, and `c >= '\0'` then lets them through. `std::string` compares through `char_traits<char>`, which compares as `unsigned char`, and unsigned UTF-8 byte order is code-point order, so `OrderedSet.StringLess` orders UTF-8 strings exactly as `std::less<std::string>` does.
- Output is left out: the `cout` line `RemoveDuplicates` prints for each duplicate and the `operator<<` for pages and documents. `Duplicates.RemoveDuplicates` returns the removed ids in print order instead.
- Iteration over the server (`begin()`/`end()`) is modelled as the ascending `documentIds` sequence. `GetDocumentId` is declared in `search_server.h` but has no definition, so it is not part of this model. `Paginator::begin`/`end` are the `pages` field.
- The header's state disagrees with the `.cpp`: it has no `document_to_word_freqs_` and declares `order_documents_id_` as a `vector`, while the `.cpp` uses `insert` and the map. The model follows the `.cpp`.
- Search.Weight is 0 for a document with no kept words. The source computes `1.0 / 0` there but never uses it.
- Search.SearchServer.MatchDocument, Search.SearchServer.FindAllDocuments and Search.SearchServer.FindTopDocuments require the class invariant `Valid()`, which every constructor and every public operation except Search.SearchServer.AddDocumentAsWritten preserves (Search.SearchServer.IndexWords and Search.SearchServer.IndexValidWords are loop helpers of `AddDocument` and promise only the postings they write); that one breaks it on a refused document (Search.FailedAddLeavesOrphanPosting) and is kept only to exhibit the finding below. Without it, the source's `documents_.at` could throw.
- Requests.RequestQueue.AddFindRequest: a query that throws is not recorded, because the exception leaves the method before `Add`. The model returns the error instead and leaves the window unchanged.
- `main.cpp`, `read_input_functions`, `log_duration.h` and the test driver are I/O and timing, and are not part of this model. Cases from the tests appear as example lemmas.

## Findings

| source | as written | input that shows it | evidently intended | confidence | as-written member | corrected member |
|---|---|---|---|---|---|---|
| search-server/search_server.cpp:24-28 | each word is checked inside the loop that already updates both posting maps, so an invalid word throws after the earlier words were posted | on an empty server, `AddDocument(0, "cat \x01", ACTUAL, {})` posts `"cat" -> {0: 0.5}` in both maps and throws; document 0 is not in `documents_`, so a later search for "cat" reaches `documents_.at(0)` and throws (Search.FailedAddLeavesOrphanPosting) | validate every word before changing any state | not executed | Search.SearchServer.AddDocumentAsWritten | Search.SearchServer.AddDocument |
