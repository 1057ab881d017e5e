# Verified model of the search engine's index and query core

A model, in Dafny 4.11, of the inverted index and the query engine of this repository, with proofs. It follows one
chain from end to end, and the parts beside it that stand on their own.

**The chain.** `IndexBuilder` puts the words of pages on one global line of positions and keeps, for each term, a
delta-encoded list of posts with a checkpoint every 128 posts and one end-of-document post for each document that has
the term. `WriteBlobV4` lays all of it out as bytes with a bucketed dictionary, and the readers of `Index` work straight
on those bytes. A query text is parsed, normalized and compiled to a tree of stateful streams (word, phrase, AND, OR,
AND with exclusions), which `walk_isr_docs` drains. The main result is `QueryCompiling.SearchText`, and
`Answering.AnswerText` through the mapped file: for any text, the documents found over any indexable sequence of pages
are exactly the pages that the text asks for. What a text asks for is `Readings.QueryWants`, read naively off a
derivation of the text in the tolerant grammar of module `Grammar`: stray characters, missing closers and empty operands
are part of it, and by `Derivations.EveryTextDerives` every text has a derivation or comes to nothing. A stop word counts
only where nothing else stands beside it, and a NOT only takes pages away. Without stop words and with well-placed NOTs
this is the plain boolean reading (`QueryCompiling.SearchDerivation`). `Engine.BuildAndSearch` says the same of every
query tree through `Engine.Found`. A sequence of pages is indexable (`Engine.Indexable`) when its position line fits an
int and neighbouring posts of a term are less than 2^29 apart; `Engine.BuiltIndexServes` shows that this is exactly when
the built index is right.

**What the reference definitions are held to.** Methods are proved against functions; the functions are tied to
statements that do not name them: query texts to `Derivations.PlainTexts` and its neighbours, runs of words to
`Text.AlphabetIs`, `RunsOfWord` and `RunsOfSides`, answerable parts to `Queries.AnswerableFinds`, posts and byte formats
to numbers (`PostIs`, `HeaderInNumbers`, `PageInNumbers`, `EncodeIsRfc`), the distributor's state to the actions of its
run (`Distributing.RunByActions`).

**How the streams are proved.** A stream stands for the set of documents that `Sat` gives it. `Good` says that a valid
stream sits in the document of its current match and that this document is one of its own; `Seen(t, docs, location)` is
the low-water mark: in the documents that start at or after the location it has skipped no match and no document of its
own. `StartsAt` says where the matches of a stream of any shape start; `Low` is the mark within a document, for words,
phrases and ORs of them (`IsPlain`).
Each operation keeps `Good` and moves `Seen`, for any children that keep them, so ANDs, ORs, phrases and exclusions nest
freely. `Sat` of a compiled stream is then the boolean reading of the query (`Searching.Means`).

**Beside the chain.** The constraint solver as a second way to the same answers; the field readers; the hash table with
its iterator; the minimal-span finder; the distributed collector as a state machine over every interleaving; page files;
the UTF-8 codec; the robots path matcher.

## Files

| file | content |
|---|---|
| Text, Posting, Positions, Pages | words and folding, the post code and lists, the reference definition of hits, pages |
| Wrappers | the option type |
| IndexBuilder, BlobFormat, BlobWriter, BlobReader, Bytes, Storage | building, writing, mapping and reading an index |
| IndexReader, IsrWord, IsrPhrase, IsrTree | the readers and the streams |
| Query, Search, Engine, ConstraintSolver | query meaning, compilation, the walk, the end-to-end theorem |
| Parser, ParserProperties, Grammar, Derivations | from query text to a tree, and what texts there are |
| Normalize, Flattening, Reading, QueryCompiler | from a tree to a compiled query, and what it finds |
| Answering | from pages and query text to answers, through the mapped file |
| PageFile, PageIndexer | page files, and the way from them to an index and back |
| HashTable, Dictionary, SpanFinder, Distributor, Sorting, Utf8, Wildcard | the independent cores |

## Where code and documentation differ

The model follows the code.

- `src/query/query_ast.hpp:16-17` says that only a text without words has no tree. An empty phrase also gives none, and
  what follows it may be dropped: `ParserProperties.NoTreeMeansNoWords`, `EmptyPhraseHidesWords` and, for every text,
  `NoTreeExactly`.
- `src/index/isr.h:12-14` says that `Seek` goes to the first match that starts at or after the location. Every stream does
  when the location is the start of a document, as `SkipToDoc` calls it, and words, phrases and ORs of them always do:
  `IsrTrees.Seek`. `ISRAnd` and `ISRContainer` go by the document that contains the location, so their match may start
  before it: `Searching.SeekStaysBefore`. `IsrTrees.SeekIsExact` gives the exact condition for them, whatever their
  children, and `IsrTrees.EarlyStart` bounds the failure for every tree.
- `Seek` of a composite never goes back, and that of an exhausted word, phrase or OR fails: `IsrTrees.Seek` states what
  each kind does from every state.
- `SkipToDoc` past the last document returns false and leaves the stream valid (`src/index/isr.cpp:39`), while a word
  stream that runs off its list is invalid (`src/index/isr.cpp:88-90`); `IsrTrees.SkipToDoc` states both.
- `normalize` may drop the stop word that an AND with a NOT goes by, and the compiled query is then empty:
  `Flattening.StopWordWasTheAnchor`, and exactly when in `Flattening.NormalIsWellPlaced`.
- The grammar of `src/query/query_ast.hpp:5-12` has no stray characters, missing closers or empty operands; the parser
  takes them all, and module `Grammar` says how: a stray character is skipped, and after it any `-`, `|` or `)` before
  the operand is one too.
- A NOT that is not a child of an AND with another child is dropped by the compiler: `Queries.AnswerableIsWhole`,
  `Engine.MisplacedNots`, `Engine.NotsAreDropped` and `Engine.LostAlternative`. A page without words is never found,
  whatever the query: `Engine.WordlessIsNotFound`.
- `get_next_page` reads the first eight bytes of a page unchecked (`src/index/page_data.cpp:97`):
  `PageFiles.PageFileReader.GetNextPage` says exactly when they are inside the mapping, `PageFiles.ReadPastHeader` is a
  file where they are not.
- `exact_phrase` looks at the leftmost tightest window only: `SpanFinding.LaterPhraseIsMissed`.
- The page file limit is 1000000 bytes; its comment says 200MB (`src/index/page_data.h:38`).

## Model

| member | source | states |
|---|---|---|
| QueryCompiling.SearchDerivation | src/engine/search_engine.hpp:291-315 | For the text of any derivation of the query grammar, whatever the parser leaves after it: the pages found are, in increasing order, exactly those that the derivation asks for when read naively (rows of operands, a stop word left out beside anything else, a NOT only taking pages away); without stop words and with well-placed NOTs these are the pages on which the derivation's tree is true, and with stop words but no NOT none of those is lost |
| QueryCompiling.SearchText | src/query/query_compiler.hpp:27-34 | For any text: the pages that its derivations ask for, ascending, and none when the text comes to nothing; these are the pages that the compiled query finds, and those that satisfy its answerable part |
| QueryCompiling.AnswersAreSettled | src/engine/search_engine.hpp:291-315 | Every text has a derivation that asks for exactly the pages found, or comes to nothing and finds none |
| Readings.DerivationFinds | src/query/query_ast.hpp:260-402 | What the normal form of a derivation's tree finds, and whether it looks for anything, read off the derivation alone |
| Readings.NormalWanted | src/query/query_ast.hpp:262-300 | Any tree, stop words and NOTs included: its normal form finds a page exactly when the tree's operands do, nested ANDs read as one row and stop words left out beside anything else |
| Readings.NormalPositive | src/query/query_ast.hpp:262-300 | The normal form looks for something exactly when an operand that counts does and is no NOT |
| QueryCompiling.NormalKeepsOrder | src/query/query_ast.hpp:262-300 | The words of the flat form are those of the tree in their order, and the words of the normal form some of them in their order |
| QueryCompiling.CompiledShape | src/query/query_compiler.hpp:27-34 | A compiled query is in normal form and no operator of it lacks operands |
| QueryCompiling.FlatHasNoStopWords | src/query/query_ast.hpp:260-300 | Without stop words normalization is flattening alone |
| QueryCompiling.DerivationCompiles | src/query/query_compiler.hpp:27-34 | The text of a derivation compiles to the normal form of the derivation's tree, in which operators have operands and phrases words |
| QueryCompiling.CompiledAnswersTree | src/query/query_ast.hpp:260-300 | What the normal form of a tree finds, in terms of the tree: the same pages without stop words and with well-placed NOTs, no page lost without NOT |
| QueryCompiling.NormalIsPlain | src/query/query_ast.hpp:262-300 | The pass adds no NOT and leaves no operator without operands and no phrase without words |
| Engine.BuildAndSearch | src/engine/search_engine.hpp:291-303 | For every indexable sequence of pages (position line within an int, fewer than 2^29 positions between neighbouring posts of a term) and every query tree: add, compile, walk returns strictly ascending exactly the pages that the tree finds, by cases: a word or a phrase in some field; an AND with something positive when every positive child finds the page and no negated one does; an OR when a child does; a NOT never. The same as the pages that satisfy the answerable part, and the whole query when its NOTs are well placed |
| Engine.MisplacedNots | src/query/query_ast.hpp:396-399 | The boolean reading fails for a lone NOT and for a NOT under an OR: on a page without the words the query is true and the engine does not answer it |
| Engine.NotsAreDropped | src/query/query_ast.hpp:386-399 | Among alternatives that are NOTs or well placed, the engine finds a page if and only if one that is no NOT holds there |
| Engine.LostAlternative | src/query/query_ast.hpp:364-399 | For any well-placed x and y and any z, on a page with x but neither y nor z: x (y \| -z) is true and the engine does not find it, though the query asks for something that is there |
| Engine.WordlessIsNotFound | src/query/query_ast.hpp:347-402 | For every query: a page without words is never found, and it satisfies the query exactly when the query holds of nothing, which a look at the query decides; so on such a page the engine and the boolean reading part exactly on those queries |
| Engine.EvalIsMatches | src/index/index_builder.cpp:134-140 | Evaluating a query on the tokens of a page equals reading it naively on the page's folded fields |
| Engine.FindsIsFound | src/index/index_builder.cpp:134-140 | What a query finds among the tokens of a page is what it finds in the page's folded fields |
| Engine.PhraseIsInField | src/index/isr.cpp:303-333 | A phrase of a document is a run of consecutive words within one field of the page |
| Engine.BuildIndex | src/index/index_builder.cpp:92-163 | After any run of addDocument the builder's whole state is that of the pages added |
| Engine.BuiltIndexServes | src/index/index_builder.cpp:92-163 | The built lists decode to the exact hits of every term, absent terms have no list and the ranges are the documents', if and only if the corpus is indexable |
| Engine.ShortIsIndexable | src/index/index_builder.h:19-30 | Any corpus of up to 2^29 positions is indexable |
| Storage.BuildAndLoad | src/index/index_builder.cpp:169-386 | For every indexable sequence of storable pages: adding them, writing the blob and mapping it gives an index whose every range and list is that of an index that serves the corpus, whenever the blob's size fits 64 bits; its metadata reads back too when the string arena and the title references fit 32 |
| Storage.BuiltStateFits | src/index/blob_format.h:14-95 | Every number of a builder's state that a search reads fits its field of the blob, given byte strings, NUL-free words, a position line within an int and a total size within 64 bits; those of the metadata too when the arenas keep within 32 |
| Storage.GatherEntries | src/index/index_builder.cpp:178-182 | One entry for each dictionary term, with its list and hash |
| Storage.ServeList | src/index/index.cpp:191-195 | A list read from a mapped blob is the list of the index, and absent exactly when the term is |
| Storage.ServeRange | src/index/index.cpp:250-261 | A range read from a mapped blob is the document's, and refused exactly outside the documents |
| Storage.ServeTerms | src/index/index.cpp:191-195 | The ranges, and the lists of any NUL-free words, read from a mapped blob are those of the index |
| Storage.SearchBlob | src/engine/search_engine.hpp:307-316 | A search that reads every range and list from the mapped bytes returns, ascending, exactly the documents that the query finds, by cases over its children, and so those that satisfy its answerable part |
| Answering.CompiledTermsFit | src/query/query_ast.hpp:152-160 | Every word of a compiled query can be looked up in the blob |
| Answering.AnswerText | src/engine/search_engine.hpp:307-316 | From pages and any text, through the file: index, write, map, parse, normalize, compile and walk over the mapped bytes give exactly the pages that the text's derivations ask for, and none when it comes to nothing |
| Answering.AnswerDerivation | src/engine/search_engine.hpp:291-315 | Through the file, for the text of any derivation of the grammar: exactly the pages that it asks for, as from the in-memory index |
| Text.SplitURL | src/index/index_builder.cpp:77-90 | The folded maximal alphanumeric runs of a URL, in order |
| Text.AlphabetIs | src/index/index_builder.cpp:77-90 | Word characters are the ten digits and the letters of the two alphabets; folding takes each capital to its small letter and nothing else anywhere |
| Text.RunsOfWord | src/index/index_builder.cpp:77-90 | A word alone is one run, folded; the empty string has none |
| Text.RunsOfSides | src/index/index_builder.cpp:77-90 | Around any other character, the runs of both sides: with the row above, this determines the runs of every string |
| Text.RunsAreWords | src/index/index_builder.cpp:77-90 | Each run is non-empty, alphanumeric and lowercase |
| Posting.PostRoundTrip | src/index/index_builder.h:19-30 | A post gives back its decoration, and its delta if and only if 0 <= delta < 2^29 |
| Posting.PostIs | src/index/index_builder.h:19-30 | A post is eight times the delta plus 0 for body, 1 for title, 2 for url, 3 for anchor, 4 for the end of a document |
| Posting.WordCountIs | src/index/index_builder.cpp:54-74 | The word count of hits is the number of those that are no end of document |
| Posting.EncodesDecodes | src/index/index.h:66-70 | A list that encodes a sequence of hits has exactly their positions as prefix sums and their decorations if and only if no delta reaches 2^29 |
| Positions.HitsAre | src/index/index_builder.cpp:92-163 | The reference hits of a term: increasing, and exactly the positions that hold the term together with the end slot of each document that contains it |
| Positions.RangesAreDisjoint | src/index/index_builder.cpp:157-160 | Document ranges are disjoint and ordered |
| Positions.DocCountIs | src/index/index_builder.cpp:54-74 | The document count of a term is the number of documents that have it |
| Positions.LastDocIs | src/index/index_builder.cpp:54-74 | The last document of a term has it and no later one does; -1 exactly when none does |
| Pages.HasTermIsInSomeField | src/index/index_builder.cpp:134-140 | A page's tokens contain a term exactly when one of its four fields does |
| IndexBuilding.TokensInOrder | src/index/index_builder.cpp:134-140 | The tokens of a page: URL parts, title words, body words, anchor words, in this order, each with its own decoration and all but the URL parts folded |
| IndexBuilding.MetadataIs | src/index/index_builder.cpp:92-163 | The metadata of a document field by field: the first starts at 0 and each other one after the end slot of the one before, the end is the start plus the words of the four fields, the distance keeps its low 32 bits, everything else is the page's |
| Pages.FieldOccurrences | src/index/index_builder.cpp:134-140 | A term occurs among the tokens with a decoration as often as in that field of the page |
| IndexBuilding.WithPostEncodes | src/index/index_builder.cpp:54-74 | One more post, with its checkpoint every 128 posts and its word count, keeps a list the encoding of its hits |
| IndexBuilding.IndexBuilder.GetPostingList | src/index/index_builder.cpp:31-35 | The list of a term, created empty on first use, everything else unchanged |
| IndexBuilding.IndexBuilder.AddPostDirect | src/index/index_builder.cpp:54-74 | Adds one post and, on the first of a document, counts the document; only that term's list and the position counter change |
| IndexBuilding.IndexBuilder.EmitPost | src/index/index_builder.cpp:122-132 | The dictionary is that of the documents so far and the tokens of the current one, one token longer |
| IndexBuilding.IndexBuilder.EmitField | src/index/index_builder.cpp:134-140 | One field of the page, folded or as it is, appended to the current document's tokens |
| IndexBuilding.IndexBuilder.EmitEndOfDocument | src/index/index_builder.cpp:144-155 | One end-of-document post for each term of the document, in whatever order, completes the dictionary of the documents |
| IndexBuilding.IndexBuilder.EmitFields | src/index/index_builder.cpp:134-140 | The four fields in order give exactly the page's tokens |
| IndexBuilding.IndexBuilder.AddDocument | src/index/index_builder.cpp:92-163 | Keeps the builder invariant: metadata, position counter and, for every term, posts, checkpoints, num_docs, word_occurrences and last_doc_id are those of the pages added |
| IndexBuilding.HitsOfNextDoc | src/index/index_builder.cpp:142-160 | What one more document does to the hits, document count and last document of any term |
| BlobWriting.WriteBlobV4 | src/index/index_builder.cpp:169-386 | The two passes, over a byte buffer with moving cursors, leave exactly the specified blob |
| BlobWriting.CountBuckets | src/index/index_builder.cpp:185-187 | The smallest power of two from 16 on that is at least twice the number of terms |
| BlobWriting.GroupChains | src/index/index_builder.cpp:189-193 | Chain b lists, in order, exactly the entries whose hash falls into bucket b |
| BlobWriting.MeasureDocuments | src/index/index_builder.cpp:231-250 | String arena, title references and per-document offsets of the first pass |
| BlobWriting.PlaceTuples | src/index/index_builder.cpp:272-285 | Every tuple stands behind the ones before it in its chain, every chain ends in a sentinel, and empty buckets have offset 0 |
| BlobWriting.PlacePostings | src/index/index_builder.cpp:263-270 | Every posting list stands behind the ones before it |
| BlobWriting.Fill | src/index/index_builder.cpp:287-380 | The second pass writes all seven sections, each at its offset |
| BlobFormat.SectionsStand | src/index/index_builder.cpp:253-261 | Each section of the blob stands at its computed offset |
| BlobFormat.RecordsAreAligned | src/index/blob_format.h:97-100 | Every section, dictionary tuple and posting list begins at a multiple of 8 |
| BlobFormat.ChainIs | src/index/index_builder.cpp:189-193 | Every entry of a bucket is in its chain |
| BlobWriting.ChainIncreases | src/index/index_builder.cpp:189-193 | A chain lists its entries in increasing order, so each once |
| Bytes.LittleEndianRoundTrip | src/index/blob_format.h:14-54 | A little-endian field gives its value back if and only if the value fits |
| BlobReading.BlobIndex.LoadBlob | src/index/index.cpp:100-136 | Loads exactly the files with a whole header, the magic number and the version; a written blob leaves the reader's offsets at its sections |
| BlobReading.BlobIndex.GetDocumentRange | src/index/index.cpp:250-261 | Exactly the stored range, refused outside the documents |
| BlobReading.BlobIndex.GetDocumentMetadata | src/index/index.cpp:215-242 | Exactly the metadata the builder held, url and title words included; the default outside the documents |
| BlobReading.BlobIndex.GetTitleWords | src/index/index.cpp:236-241 | The words of a title through its run of references |
| BlobReading.BlobIndex.MakeViewAt | src/index/index.cpp:166-189 | At a posting offset, exactly the list that was written |
| BlobReading.BlobIndex.TermIsAt | src/index/index.cpp:158-159 | The NUL-terminated comparison holds exactly when the strings before the first NUL are equal |
| BlobReading.BlobIndex.FindTermOffset | src/index/index.cpp:138-164 | The whole string picks the bucket and the hash, the comparison stops at its first NUL: the offset of the list of the dictionary term so found, 0 when there is none; the walk of a chain ends at its zero sentinel |
| BlobReading.BlobIndex.GetPostingList | src/index/index.cpp:191-195 | For a written blob and any byte string: the very list of the dictionary term with its hash and its characters before the first NUL, none otherwise |
| BlobReading.TermIsWhole | src/index/index.cpp:158-159 | A string without NUL is compared whole |
| BlobReading.DocRecordReads | src/index/index.cpp:215-235 | All twelve data fields of a document record read back |
| BlobReading.RangeReads | src/index/index.cpp:250-261 | The two positions of a document record read back, whatever the size of the string arena |
| BlobReading.PostingReads | src/index/index.cpp:166-189 | Header, posts and both checkpoint arrays of a list read back |
| BlobReading.HeaderInNumbers | src/index/blob_format.h:11-29 | The header of a blob in numbers: eight letters, version, total size, position counter, counts, the offsets of the first sections, and NULs |
| BlobReading.TupleInNumbers | src/index/blob_format.h:64-77 | A dictionary entry is three numbers and the term, then one to eight NULs up to a multiple of 8 |
| BlobReading.PostingInNumbers | src/index/blob_format.h:79-95 | A posting list is six numbers and three arrays, then NULs up to a multiple of 8 |
| Bytes.FieldsInNumbers | src/index/blob_format.h:14-54 | The bytes of 16, 32 and 64-bit fields, low byte first, in numbers |
| BlobReading.SentinelReads | src/index/blob_format.h:60-63 | Past the last tuple of a chain the next length read is 0 |
| IndexReading.FindCheckpoint | src/index/index.cpp:13-36 | The binary search finds the last checkpoint at or before the target, or none |
| IndexReading.WalkFieldPosts | src/index/index.cpp:265-304 | From whichever checkpoint it starts, the walk visits exactly the posts of the range that carry the decoration |
| IndexReading.GetFieldPositions | src/index/index.cpp:317-327 | Exactly the positions of the folded term in that field of the document, increasing |
| IndexReading.GetFieldTermFrequency | src/index/index.cpp:306-315 | The number of times the folded term occurs in that field of the document |
| Engine.FieldFrequency | src/index/index.cpp:306-315 | Over the index of pages, how often a word is among the folded title words, body words, anchor words or URL parts of the page |
| IndexReading.DocumentAt | src/index/isr.cpp:11-31 | The binary search over ranges finds the one document around a position |
| WordReading.ISRWord.constructor | src/index/isr.cpp:46-53 | Opens on the first hit of the term, invalid exactly when there is none |
| WordReading.ISRWord.Next | src/index/isr.cpp:55-68 | Moves to the next word hit, skipping end-of-document posts |
| WordReading.ISRWord.Seek | src/index/isr.cpp:70-109 | The checkpointed seek lands where a linear scan for the first word hit at or after the location does, and fails exactly when there is none |
| WordReading.ScanIsFirst | src/index/isr.cpp:70-109 | The linear scan is the first word hit at or after a location |
| WordReading.ISREndDoc.Seek | src/index/isr.cpp:141-163 | The binary search stops at the first document that ends at or after the location, past the end when there is none |
| WordReading.ISREndDoc.Next | src/index/isr.cpp:134-139 | The next document, or past the last |
| PhraseReading.PhraseHitIsInDocument | src/index/isr.cpp:303-333 | Words at consecutive positions with one decoration are consecutive words of one field of one document: no match crosses a field or a document, and every occurrence is a match |
| PhraseReading.ISRPhrase.constructor | src/index/isr.cpp:289-301 | Opens on the first phrase match of the corpus, invalid exactly when there is none |
| PhraseReading.ISRPhrase.TailAligns | src/index/isr.cpp:306-319 | All later words stand at the anchor's offsets in the anchor's field, or the anchor is no match |
| PhraseReading.ISRPhrase.FindFromCurrent | src/index/isr.cpp:303-333 | The first match at or after the anchor, invalid exactly when there is none |
| PhraseReading.ISRPhrase.Next | src/index/isr.cpp:335-339 | The first match after the current one |
| PhraseReading.ISRPhrase.Seek | src/index/isr.cpp:341-345 | The first match at or after the location |
| IsrTrees.GetCurrentDocId | src/index/isr.cpp:11-31 | The document of the current match |
| IsrTrees.SkipToDoc | src/index/isr.cpp:38-44 | A target that is no document fails and leaves the stream as it was. From a document before the target any stream lands on its first match from the target's start on, or on none exactly when there is none; so does a word or a phrase from anywhere. A composite on the target or past it stays on its match, and an exhausted stream other than a conjunction stays so |
| IsrTrees.AlignAll | src/index/isr.cpp:188-197 | Whatever the children have skipped: every child reaches the target or a later document of its own, none that is there already moves, none goes back; it fails only when no common document is left, if the children had skipped nothing from the target on |
| IsrTrees.Converge | src/index/isr.cpp:364-384 | Over any children that keep the cursor contract: a document from the target on that all of them hold, none of them skipping a match of it; the least one, or -1 exactly when there is none, if they had skipped nothing from the target on; the target strictly increases |
| IsrTrees.FindNextAnd | src/index/isr.cpp:183-219 | The conjunction stops at a document of its own from minDoc on, or is exhausted; at its least one, and exhausted exactly when there is none, if its children had skipped nothing from there on; children that are together on minDoc or later do not move |
| IsrTrees.AnyExcludedIn | src/index/isr.cpp:386-399 | Whether some excluded child holds the document |
| IsrTrees.Candidate | src/index/isr.cpp:405-424 | The next document of all contained children, and whether an excluded child blocks it |
| IsrTrees.FindNextContainer | src/index/isr.cpp:401-425 | A document from minDoc on that holds every contained child and no excluded one, or exhaustion; the least one, and exhaustion exactly when there is none, if the contained children had skipped nothing from there on; contained children that are together on such a document do not move |
| IsrTrees.PickMin | src/index/isr.cpp:253-271 | The child with the smallest start, the first of equal ones |
| IsrTrees.Seek | src/index/isr.h:12-29 | From any state. A valid stream before the location lands on the first of its documents that the location allows: words, phrases and ORs of them on the first match that starts at or after the location, or on none exactly when there is none; every stream likewise when the location is the start of a document; a conjunction on its first match from the start of the location's document on, so at or after the location if and only if it has no match before it in that document. Words and phrases go back as well; a composite at or past the location stays on its match, and an exhausted stream other than a conjunction stays so |
| IsrTrees.SeekIsExact | src/index/isr.cpp:236-239 | A conjunction or container, whatever its children, starts at or after the location if and only if it has no match before it in the location's document, a condition on the documents and the location alone |
| IsrTrees.SeenIsFirst | src/index/isr.h:28-29 | Any stream that has come to a document having skipped nothing from there on is on its first match from the start of that document, and exhausted exactly when there is none |
| IsrTrees.IsOnMatch | src/index/isr.cpp:205-214 | A valid stream of any shape is on a match; that of a conjunction starts where the first match of any of its parts in a document of its own does |
| IsrTrees.ConjunctionSeen | src/index/isr.cpp:188-219 | A conjunction that has skipped none of its documents has skipped none of its matches |
| IsrTrees.StartsInDocument | src/index/isr.cpp:183-219 | A match of a stream of any shape starts in a document that the stream stands for |
| IsrTrees.EarlyStart | src/index/isr.h:12-14 | Of any stream, a match that starts before the location sought lies in the document of the location, and the location is past its start |
| Searching.SeekStaysBefore | src/index/isr.cpp:236-239 | AND(a, b) parked on a page `a b`: Seek(1) succeeds on the match that starts at 0 |
| IsrTrees.SeekAnd | src/index/isr.cpp:236-239 | The conjunction sought by location from any state: forward, its first match from the start of the location's document on; on that document or past it already, nothing changes |
| IsrTrees.SeekOr | src/index/isr.cpp:280-287 | The disjunction sought by location from any state: forward, every child before it moved, of words, phrases and ORs of them the first match that starts at or after the location; at or past it already, nothing changes; exhausted, it stays so |
| IsrTrees.SeekContainer | src/index/isr.cpp:432-435 | The container sought by location from any state: forward, its first match from the start of the location's document on; on that document or past it already, its match stays the same |
| IsrTrees.Next | src/index/isr.h:23-24 | Any stream, advanced, is strictly further on by a count of its steps and skips no later document; its match never starts earlier, and strictly later but for an OR; words, phrases and ORs of them skip no match after the one they left; a conjunction or container moves to its next document |
| IsrTrees.NextAnd | src/index/isr.cpp:231-234 | The conjunction moves to its next document |
| IsrTrees.NextOr | src/index/isr.cpp:273-278 | The current child is strictly further on and every other child where it was; the earliest match is picked again, never starts before the one left, and no match after it is skipped when the children are words, phrases or ORs of them |
| Searching.CompileToIsr | src/query/query_ast.hpp:347-402 | There is a stream exactly when the query has something positive: a word or a phrase with words, an AND when a child that is no NOT has, an OR when some child has, a NOT never. The stream stands for the documents that the query finds: for an AND, those that every positive child finds and no negated one; for an OR, those that some child finds; it is at its first document |
| Searching.CompileAnd | src/query/query_ast.hpp:364-376 | The children of an AND, split into contained and excluded ones |
| Searching.CompilePhrase | src/query/query_ast.hpp:353-361 | A phrase stream, or the word stream for one word |
| Searching.CompileOr | src/query/query_ast.hpp:386-392 | The streams of the answerable children of an OR |
| Searching.WalkIsrDocs | src/engine/search_engine.hpp:291-303 | The walk returns, strictly ascending, exactly the documents the stream stands for |
| Searching.Search | src/engine/search_engine.hpp:307-316 | Compile and walk over any index of a corpus: exactly the documents that the query finds, by cases over its children, and so those of the answerable part |
| Queries.AnswerableIsWhole | src/query/query_ast.hpp:364-400 | The compiler keeps a query whole if and only if NOT stands only under an AND that has another child and no operator is empty |
| Queries.AnswerableFinds | src/query/query_ast.hpp:347-402 | The answerable part of a query holds of exactly the documents that the query finds, stated by cases over the children, and there is one exactly when the query has something positive |
| Queries.EvalAnd | src/query/query_ast.hpp:364-376 | An AND holds exactly when all its contained children do and none of its excluded ones |
| Queries.OneWordPhrase | src/query/query_ast.hpp:353-361 | A phrase of one word is that word |
| ConstraintSolving.FindAndQuery | src/index/constraint_solver.cpp:8-66 | The documents that hold all the terms, strictly ascending: the same list as the ISR tree gives |
| ConstraintSolving.Intersect | src/index/constraint_solver.cpp:27-66 | The loop over one cursor for each term |
| ConstraintSolving.FindOrQuery | src/index/constraint_solver.cpp:68-84 | The documents that hold some term, strictly ascending |
| ConstraintSolving.AgreesWithTree | src/index/constraint_solver.cpp:8-84 | For any terms, none included, the solver and the compiled stream return the same lists, for AND and for OR |
| Parsing.Parser.ParseRoot | src/query/query_ast.hpp:136-141 | Leaves the tree and the cursor that the reading functions give; every method below likewise, with the remaining input and the call rank as measure |
| Parsing.Parser.ParseOr | src/query/query_ast.hpp:162-182 | The operands of an alternative, joined into one OR from the left |
| Parsing.Parser.ParseAnd | src/query/query_ast.hpp:184-201 | The operands in a row, one alone unwrapped |
| Parsing.Parser.ParseUnary | src/query/query_ast.hpp:203-212 | An operand, negated after '-' |
| Parsing.Parser.ParsePrimary | src/query/query_ast.hpp:214-234 | A group, a phrase or a word, past any stray characters |
| Parsing.Parser.ParsePhraseBody | src/query/query_ast.hpp:236-250 | The words up to the closing quote; none gives no tree, one gives the word |
| Parsing.Parser.ReadWord | src/query/query_ast.hpp:152-160 | The folded maximal run at the cursor |
| Parsing.Parse | src/query/query_ast.hpp:255-258 | The tree of a text |
| ParserProperties.ParseKeepsWords | src/query/query_ast.hpp:132-251 | On every input the words of the tree, then the words of the text not read, are the input's folded alphanumeric runs: none lost, split or reordered; no operator of the tree lacks operands |
| ParserProperties.NoTreeExactly | src/query/query_ast.hpp:162-250 | There is no tree if and only if a scan of the text, one flag for each open parenthesis, finds no word that counts |
| ParserProperties.NoTreeMeansNoWords | src/query/query_ast.hpp:14-17 | The header's claim that only a text without words has no tree holds for every text that does not open with an empty phrase |
| ParserProperties.EmptyPhraseHidesWords | src/query/query_ast.hpp:247-248 | It fails for an empty phrase followed by a word |
| Grammar.DerivationParses | src/query/query_ast.hpp:136-251 | Every derivation parses to its tree and leaves exactly what follows it. Derivations carry stray characters before words, groups and quotes and between quoted words, missing closers, and operands that come to nothing; a '-' negates only when nothing but spaces stands before it, and after a stray character '-', '\|' and ')' are stray too |
| Derivations.EveryTextDerives | src/query/query_ast.hpp:136-251 | Every text is that of a derivation with a tree, or of one that comes to nothing and has none |
| Derivations.OneTree | src/query/query_ast.hpp:136-251 | All derivations of a text have the same tree |
| Grammar.MissesHaveNoTree | src/query/query_ast.hpp:214-250 | What comes to nothing, empty quotes, groups of them and the end of the text, has no tree |
| Derivations.WordsInRow | src/query/query_ast.hpp:184-234 | Two words with any spaces or stray characters between them are an AND, the second negated exactly when the first character that is no space is a '-' |
| Derivations.PlainTexts | src/query/query_ast.hpp:184-234 | For any words v and w: `v w`, `v.w` and `v.-w` are AND(v, w), `v -w` is AND(v, NOT w) |
| Derivations.SpaceBeforeDash | src/query/query_ast.hpp:124-126 | Spaces are space, tab, newline and carriage return: a '-' after one of them negates the word after it |
| Derivations.StrayBeforeDash | src/query/query_ast.hpp:231-233 | After any other stray character a '-' is skipped |
| Derivations.RowsAreAlternatives | src/query/query_ast.hpp:162-201 | `v w\|x` is OR(AND(v, w), x) |
| Derivations.GroupsAreOperands | src/query/query_ast.hpp:217-223 | `(v\|w) x` is AND(OR(v, w), x) |
| Derivations.QuotesArePhrases | src/query/query_ast.hpp:236-250 | `"v w"` is the phrase of v and w |
| Grammar.OrTreeMeans | src/query/query_ast.hpp:172-179 | Joining alternatives into a left OR keeps the meaning of the derivation |
| Grammar.OrParses | src/query/query_ast.hpp:162-182 | Completeness for alternatives, a last one that comes to nothing included |
| Grammar.AndParses | src/query/query_ast.hpp:184-201 | Completeness for operands in a row, up to its end or an operand that comes to nothing |
| Grammar.HeadParses | src/query/query_ast.hpp:214-250 | Completeness for words, quotes and groups, closed or not |
| Grammar.UnaryParses | src/query/query_ast.hpp:203-212 | Completeness for an operand after any spaces, dash and stray characters |
| Normalization.Normalize | src/query/query_ast.hpp:262-300 | The pass gives the normal form |
| Normalization.NormalIsNormal | src/query/query_ast.hpp:269-299 | No AND under an AND, no OR under an OR, and no stop word beside anything else in an AND |
| Normalization.NormalizeIsIdempotent | src/query/query_ast.hpp:262-300 | A second pass changes nothing |
| Normalization.NormalHasOperands | src/query/query_ast.hpp:282-299 | No operator loses its last operand |
| Normalization.DropStopsMembers | src/query/query_ast.hpp:282-299 | Exactly the stop words go, and only when something else stays |
| Normalization.StopWordsAre | src/query/query_ast.hpp:112-120 | The 38 stop words, listed by length, and no others |
| Normalization.SplicedMeans | src/query/query_ast.hpp:269-280 | Flattening one level keeps the meaning on every document |
| Normalization.NormalEnlarges | src/query/query_ast.hpp:260-300 | On NOT-free queries every document that matched still matches |
| Flattening.FlatMeans | src/query/query_ast.hpp:269-280 | Flattening everywhere keeps the meaning of every query on every document |
| Flattening.NormalIsFlatThenDropped | src/query/query_ast.hpp:262-300 | The one recursive pass equals flattening everywhere and then dropping stop words |
| Flattening.NormalIsWellPlaced | src/query/query_ast.hpp:282-299 | Well-placed NOTs stay so if and only if each AND of the flat form keeps a child that is neither a NOT nor a stop word, or consists of stop words |
| Flattening.StopWordWasTheAnchor | src/query/query_ast.hpp:282-299 | A stop word beside a NOT is dropped and nothing answerable is left |
| HashTables.HashTable.constructor | src/index/HashTable.h:157-162 | An empty table |
| HashTables.HashTable.Lookup | src/index/HashTable.h:99-116 | The entry of the key, null exactly when there is none |
| HashTables.HashTable.Find | src/index/HashTable.h:67-97 | The table refines a map from keys to entry objects: a hit returns the same object and writes nothing, a miss adds one new object and keeps all others with their values; load stays at most 2 |
| HashTables.HashTable.Optimize | src/index/HashTable.h:118-149 | Rehashing into ceil(uniqueKeys * loading) buckets, at least one: chains stay acyclic, duplicate-free and in the right bucket, and no entry is lost, copied or changed; a loading of at least 0.5 leaves a load of at most 2 |
| HashTables.HashTable.MoveChain | src/index/HashTable.h:132-143 | Pushing every node of an old chain onto its new one |
| HashTables.SizeIsPositive | src/index/HashTable.h:124-128 | The new size is 1 or the smallest number from uniqueKeys * loading on; from a loading of 0.5 on it gives a load of at most 2 |
| Dictionaries.Step | src/index/index_builder.cpp:31-52 | One lookup, insert, update or resize, on the table as on a map |
| Dictionaries.Run | src/index/index_builder.cpp:31-52 | After any run of lookups, inserts, updates and resizes, in any order, the table holds what a map holds after the same run, every entry is the object it was, and the load is at most 2 |
| Dictionaries.GatherFromTable | src/index/index_builder.cpp:178-182 | The loop over the table gives one entry for each key it holds, with its value and hash |
| HashTables.Iterator.Next | src/index/HashTable.h:218-238 | Steps to the following entry of the chains |
| HashTables.Begin | src/index/HashTable.h:259-270 | Starts before all entries |
| HashTables.AllEntries | src/index/index_builder.cpp:178-182 | The loop from begin to end meets every entry exactly once |
| HashTables.FlatIsEntries | src/index/HashTable.h:218-238 | Bucket by bucket, chain by chain, every key comes exactly once |
| SpanFinding.FindSpan | src/ranker/dynamic/span_finder.hpp:14-81 | The span is the minimum of max - min over all choices of one position per term; order is judged by the first positions from the leftmost tightest window; found exactly when every term has a position |
| SpanFinding.BestWindow | src/ranker/dynamic/span_finder.hpp:41-62 | The sliding window finds the tightest covering window, the first of equal ones |
| SpanFinding.FirstPositions | src/ranker/dynamic/span_finder.hpp:66-71 | The first position of each term in the best window is its first from the window's start |
| SpanFinding.BestIsMinimal | src/ranker/dynamic/span_finder.hpp:38-62 | The best window of hits is the minimal span, and no window as tight starts further left |
| SpanFinding.ExactPhraseIs | src/ranker/dynamic/span_finder.hpp:64-78 | For disjoint lists exact_phrase is reported if and only if the terms stand at p, p+1, ... in query order at the start of the leftmost tightest window |
| SpanFinding.LaterPhraseIsMissed | src/ranker/dynamic/span_finder.hpp:53-57 | A phrase in a later window goes unreported |
| Distributing.JoinedRun | src/engine/query_distributor.hpp:50-75 | For every interleaving up to the join, over the actions taken: the results of a shard are, in order, exactly those delivered by it before stop was set, unchanged but for the shard; after stop a worker puts in or is handed at most one more, and what is handed then is dropped; every worker ended because its stream did or because stop was set; good_count is the number of collected results over the threshold; an early stop means enough of them, and without one or the deadline every stream ended |
| Distributing.RunByActions | src/engine/query_distributor.hpp:50-75 | At any point of any run the state is that of the actions so far: stop is set exactly by the watcher's three reasons, 'all gone' means that every stream ended, and each worker has taken exactly the results delivered to it before stop, is where its last action left it, and left only after its stream ended or stop was set |
| Distributing.RunGoesOn | src/engine/query_distributor.hpp:50-75 | At any point of any run, by the actions so far: a worker that waits without having seen stop can be handed any result or lose its stream, a delivered result can be pushed, a pushed one counted, a counted one looked at, a worker whose stream is over leaves, and the deadline may pass |
| Distributing.WatcherSees | src/engine/query_distributor.hpp:155-166 | With every pushed result counted, the watcher stops early exactly when enough collected results are over the threshold, and as all gone exactly when every worker has left |
| Distributing.StepKeepsInv | src/engine/query_distributor.hpp:50-75 | Every step of every worker and of the watcher keeps the invariant and never clears the stop flag |
| Distributing.RunKeepsInv | src/engine/query_distributor.hpp:135-172 | So does every run |
| Distributing.StopEndsSoon | src/engine/query_distributor.hpp:169-172 | Once stop is set every step brings the join nearer |
| Distributing.NeverStuck | src/engine/query_distributor.hpp:155-172 | Before the join something can happen that is not one more result: a step of a worker or the watcher, the end of a stream, or the deadline |
| Distributing.Collate | src/engine/query_distributor.hpp:178-197 | The list returned is sorted, has distinct URLs each at its best collected score, and leaves a URL out only when full with entries that score no lower |
| Distributing.Dedup | src/engine/query_distributor.hpp:184-192 | The first of each URL in a list sorted by score is its best |
| Sorting.Sort | src/engine/query_distributor.hpp:178-182 | Some arrangement of the same elements in order of key, equal ones in any order |
| PageFiles.SerializeString | src/index/page_data.cpp:237-247 | Two bytes for the length, low one first, and the characters, all of them up to 65535 bytes and the first 65535 of a longer string; everything else untouched |
| PageFiles.StringInNumbers | src/index/page_data.cpp:237-247 | The bytes of a string, one by one |
| PageFiles.StoredComesBack | src/index/page_data.cpp:237-247 | What is stored of a page is the page itself when its strings have at most 65535 bytes; otherwise it differs only in longer strings, which are cut to their first 65535 bytes |
| PageFiles.PageInNumbers | src/index/page_data.cpp:130-159 | Where each field of a page stands among its bytes |
| PageFiles.FileInNumbers | src/index/page_data.cpp:200-222 | The header of a page file in numbers: magic number, size of the pages, count |
| PageFiles.StringsInOrder | src/index/page_data.cpp:289-300 | The strings of a vector follow one another |
| PageFiles.SerializeStringVector | src/index/page_data.cpp:289-300 | The count and the strings |
| PageFiles.SerializePage | src/index/page_data.cpp:130-159 | The bytes of a page; the size reserved beforehand always suffices |
| PageFiles.PageFile.WritePage | src/index/page_data.cpp:120-176 | One more page in memory; 1 exactly when the file is now over its limit |
| PageFiles.PageFile.WritePageFile | src/index/page_data.cpp:179-234 | 0 exactly when the file was over its limit and every write succeeded, and then the file holds the pages and memory is empty; otherwise the pages stay and what was written is a prefix |
| PageFiles.PageFileReader.LoadPageFile | src/index/page_data.cpp:14-64 | Loads exactly the files with a whole header and the magic number |
| PageFiles.PageFileReader.DeserializeString | src/index/page_data.cpp:261-286 | On any bytes the cursor stays inside the mapping and never moves back; a written string reads back as stored |
| PageFiles.PageFileReader.DeserializeStringVector | src/index/page_data.cpp:303-333 | Likewise for vectors; a written one never trips the corruption checks |
| PageFiles.PageFileReader.GetNextPage | src/index/page_data.cpp:77-117 | A written page comes back equal when its strings have at most 65535 bytes, with longer ones cut there otherwise, at the offset returned; on any bytes the cursor never moves back, stays inside the mapping if and only if the eight bytes before the url do, and a corrupt page ends the file |
| PageFiles.ReadPastHeader | src/index/page_data.cpp:77-117 | A file of nothing but a header that counts one page loads, and asking for the page moves the cursor past the mapping |
| PageFiles.PageFileReader.GetPageDataFromIndex | src/index/page_data.cpp:440-473 | At the offset of any page of a written file below 2^31 bytes, that page, equal when its strings have at most 65535 bytes |
| PageFiles.PageIsAt | src/index/page_data.cpp:215-222 | Every page of a file stands at its offset, one after the other |
| PageFiles.ReadPages | src/build_index.cpp:165-167 | Reading a written file to its end gives every page in order, equal when its strings have at most 65535 bytes and with longer strings cut there otherwise, each with the offset that leads back to it |
| PageIndexing.IndexPageFile | src/build_index.cpp:165-207 | Every page of a written file, read in order, cleaned, and added unless it is skipped, with the rank, the file and the offset it is stored at; a file that cannot be mapped adds none |
| PageIndexing.PageOfDocument | src/index/page_data.cpp:440-473 | The offset in a document's metadata leads back to the page of the file that the document was made from, whole when its strings have at most 65535 bytes; cleaned, it is the document's page field by field |
| PageIndexing.KeptIsAll | src/build_index.cpp:165-207 | Every page that is not skipped is among the pages added, field by field, with its rank, file and offset |
| PageIndexing.KeptInOrder | src/build_index.cpp:165-207 | The pages added are in the order of the file, each once |
| Utf8.ReadUtf8 | src/crawler/robots.txt/Utf8.cpp:76-190 | Past the bound it returns 0 and stays; before it it always advances, within the bound. Where the bytes of a code point stand, by the table of section 2 of RFC 2279 in numbers, that code point is returned and its bytes consumed, 0xfffd for one of the replaced set; anything else gives 0xfffd, and how many bytes go then is fixed in numbers too |
| Utf8.WriteUtf8 | src/crawler/robots.txt/Utf8.cpp:214-252 | The bytes of section 2 of RFC 2279, in numbers, in place, of 0xfffd above 31 bits; nothing changes when there is no room, at a position past the bound included |
| Utf8.EncodeIsRfc | src/crawler/robots.txt/Utf8.cpp:214-252 | The encoding by masks is the table of section 2 of RFC 2279 written out in numbers, one to six bytes |
| Utf8.ReadInNumbers | src/crawler/robots.txt/Utf8.cpp:76-190 | What a read returns, in numbers, follows from its reading by masks |
| Utf8.RoundTrip | src/crawler/robots.txt/Utf8.cpp:76-252 | Any sequence of code points up to 0x7fffffff outside the replaced set, written and read, comes back |
| Utf8.CodeComesBack | src/crawler/robots.txt/Utf8.cpp:138-142 | A code point comes back if and only if it fits 31 bits and is not a surrogate, a noncharacter 0xfdd0 to 0xfdef, 0xfffe or 0xffff |
| Utf8.ValueBegins | src/crawler/robots.txt/Utf8.cpp:71-73 | A complete sequence whose value is not below the minimum of its length is that value's encoding: no overlong form |
| Utf8.NextUtf8 | src/crawler/robots.txt/Utf8.cpp:377-386 | Advances by what a read takes, fixed in numbers by the first byte and the continuation bytes after it |
| Utf8.PreviousUtf8 | src/crawler/robots.txt/Utf8.cpp:197-203 | The nearest earlier byte that may start a character, or the first byte |
| Utf8.StepBack | src/crawler/robots.txt/Utf8.cpp:197-203 | From the end of a character that was read, back to its start |
| Wildcards.Match | src/crawler/robots.txt/RobotsTxt.cpp:502-557 | Terminates, and is true exactly when some prefix of the path is an instance of the pattern, '*' standing for any string, and the whole path when the pattern ends in '$'; false for null |
| Wildcards.MatchAfterStar | src/crawler/robots.txt/RobotsTxt.cpp:517-541 | After stars, the rest of the pattern is tried at every position |
| Wildcards.StarAccepts | src/crawler/robots.txt/RobotsTxt.cpp:517-541 | A pattern that starts with '*' accepts exactly when its rest accepts the path from some point on |
| Wildcards.LiteralAccepts | src/crawler/robots.txt/RobotsTxt.cpp:545-552 | A pattern that starts with any other character accepts exactly when the path starts with it and the rests agree |
| Wildcards.EmptyAccepts | src/crawler/robots.txt/RobotsTxt.cpp:502-557 | The empty pattern accepts every path |
| Wildcards.DollarAccepts | src/crawler/robots.txt/RobotsTxt.cpp:542-544 | A final '$' accepts exactly the empty rest |

## Left out

- Searching.WalkIsrDocs: returns document ids without the span that goes with each; the spans of streams feed the ranker only.
- IsrTrees.Seek: an OR with a conjunction below it, sought to a location inside a document, is bounded by `IsrTrees.EarlyStart` only, since where it starts there depends on how far `Next` has moved each child and not on the documents and the location alone; what an exhausted conjunction does is stated up to the document it comes back on.
- IsrTrees.Next: stated for a valid stream; on an invalid one every stream returns false and changes nothing.
- Storage.SearchBlob: reads the ranges and the lists of the query's words from the mapping before the walk, where the source reads each when it is needed; the mapping does not change in between. Alignment of the mapping itself is not part of this model.
- BlobReading.BlobIndex.FindTermOffset: for byte strings, as `std::string` holds them.
- BlobWriting.WriteBlobV4: returns the bytes; opening, flushing and closing the file are I/O.
- BlobReading.BlobIndex.LoadBlob: takes the bytes of the file, or none for a file that cannot be opened or mapped.
- Engine.BuildAndSearch: nothing is said of what a search returns over pages that are not indexable, where `Engine.BuiltIndexServes` shows the index itself to be wrong or the position counter to leave the range of an int.
- Answering.AnswerText: nothing is promised when the blob outgrows 64 bits, which the source does not check.
- IndexBuilding.IndexBuilder.AddDocument: the dictionary is a map from terms to lists; that the hash table behind it holds what such a map holds after any run of calls is `Dictionaries.Run`, and that the blob's entries can be gathered from it `Dictionaries.GatherFromTable`.
- HashTables.HashTable.Optimize: the loading is a real number at least 0; only 1.5 and 2.0 are used. Freeing memory is not part of this model.
- HashTables.HashTable.Find: key comparison is equality and the hash any function of the key; `str_hash` itself is not part of this model.
- Normalization.Normalize: rewrites a tree value; the source moves the children of owned nodes in place, which no one else can observe.
- Parsing.Parser.ParseRoot: recursion depth is unbounded, as the stack is in the source.
- Queries.OneWordPhrase: the children of a phrase are its words, as the parser makes them; null children and other nodes under a phrase do not arise.
- SpanFinding.FindSpan: positions below the largest size_t, which the source uses for "none".
- Distributing.JoinedRun: every atomic operation and every locked push is one step; scores are integers, since only their order matters; a shard that times out is a stream that ends; merging of statistics is left out.
- Distributing.Collate: the sort is any sort by score, since std::sort leaves the order of equal scores open.
- PageFiles.ReadPages: files below 2^31 bytes, since offsets are returned as int.
- PageFiles.PageFileReader.GetNextPage: what the unchecked read of the first eight bytes gives past the mapping is left open.
- PageIndexing.IndexPageFile: which pages are skipped and which words are kept is a parameter; timeouts, progress output and the choice of files are left out.
- PageFiles.PageFile.WritePage: one rank at a time; the check of the rank number, file names, directories and locks are left out.
- Utf8.ReadUtf8: always with a bound; UTF-16 is left out.
- Wildcards.Match: the matcher only; parsing of robots.txt and the choice among directives are left out, and `TakesPriority` is no order.
- Ranking (BM25, static and dynamic scores, weights, snippets), extraction of ranking terms and host collapsing: floating point tuning without a crisp specification.
- Sockets, HTTP serving, plugins, crawling, frontier queues, Bloom filter, HTML parsing, URL scoring: I/O or heuristics.
- The crawler's own copy of the page file code: the checked version in src/index is modelled.
- Walkers that nothing calls, such as `ISRAnd::advanceAllTo`, and the plain getters: they would add easy members only.
