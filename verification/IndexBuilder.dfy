/** The build-time inverted index: pages become posting lists on one global
    position line. The builder's whole state is tied to the reference definition
    of the hits of a term (module Positions), for every run of AddDocument. */
module IndexBuilding {
  import opened Text
  import opened Posting
  import opened Positions
  import opened Pages

  datatype DocumentMetadata = DocumentMetadata(
    docId: int,
    url: string,
    titleWords: seq<string>,
    hopDistance: int,
    bodyLength: int,
    startPosition: int,
    endPosition: int,
    pageFileRank: nat,
    pageFileNum: nat,
    pageFileIndex: nat)

  // static_cast<int>: the low 32 bits, as a signed number
  function TruncateToInt(n: nat): int {
    var low := n % TWO_32;
    if low < 0x8000_0000 then low else low - TWO_32
  }

  function MetadataOf(pages: seq<Page>, i: nat): DocumentMetadata
    requires i < |pages|
  {
    var p := pages[i];
    DocumentMetadata(i, p.url, p.titleWords, TruncateToInt(p.distanceFromSeedlist), |p.words|,
                     Start(Corpus(pages), i), End(Corpus(pages), i),
                     p.pageFileRank, p.pageFileNum, p.pageFileIndex)
  }

  // the same, field by field: the first document stands at 0 and every other after the end slot
  // of the one before, the words of the four fields come before the end slot, and the distance
  // keeps its low 32 bits
  lemma MetadataIs(pages: seq<Page>, i: nat)
    requires i < |pages|
    ensures var m, p := MetadataOf(pages, i), pages[i];
            && m.docId == i && m.url == p.url && m.titleWords == p.titleWords && m.bodyLength == |p.words|
            && -0x8000_0000 <= m.hopDistance < 0x8000_0000
            && (m.hopDistance - p.distanceFromSeedlist) % 0x1_0000_0000 == 0
            && m.startPosition == (if i == 0 then 0 else MetadataOf(pages, i - 1).endPosition + 1)
            && m.endPosition ==
               m.startPosition + |Runs(p.url)| + |p.titleWords| + |p.words| + |p.anchorText|
            && m.pageFileRank == p.pageFileRank && m.pageFileNum == p.pageFileNum
            && m.pageFileIndex == p.pageFileIndex
  {
    hide Tokens, Runs, FoldAll, Tag;
    TokensInOrder(pages[i]);
  }

  ghost predicate AreMetadataOf(documents: seq<DocumentMetadata>, pages: seq<Page>) {
    && |documents| == |pages|
    && forall i :: 0 <= i < |pages| ==> documents[i] == MetadataOf(pages, i)
  }

  // PostingList::addPost, addCheckpoint
  function AddPost(pl: PostingList, post: nat): PostingList {
    pl.(posts := pl.posts + [post])
  }

  function AddCheckpoint(pl: PostingList, absolutePos: int): PostingList {
    pl.(seekAbsolutes := pl.seekAbsolutes + [absolutePos],
        seekIndices := pl.seekIndices + [|pl.posts| - 1])
  }

  // the effect of one post on a list, apart from the document count
  function WithPost(pl: PostingList, dec: Decoration, pos: int): (r: PostingList)
    ensures r.numDocs == pl.numDocs && r.lastDocId == pl.lastDocId
  {
    var added := AddPost(pl, EncodePost(dec, pos - pl.lastAbsPos)).(lastAbsPos := pos);
    var seekable := if |added.posts| % CHECKPOINT_STRIDE == 0 then AddCheckpoint(added, pos) else added;
    if dec != Eod then seekable.(wordOccurrences := seekable.wordOccurrences + 1) else seekable
  }

  lemma AnotherPost(posts: seq<nat>, hits: seq<Hit>, hit: Hit)
    requires ArePostsOf(posts, hits)
    ensures ArePostsOf(posts + [EncodePost(hit.dec, hit.pos - PreviousPos(hits, |hits|))], hits + [hit])
  {
    hide EncodePost;
    var more := hits + [hit];
    forall i | 0 <= i < |hits| ensures PreviousPos(more, i) == PreviousPos(hits, i) {}
  }

  lemma AnotherCheckpoint(seekAbsolutes: seq<int>, seekIndices: seq<int>, hits: seq<Hit>, hit: Hit)
    requires AreCheckpointsOf(seekAbsolutes, seekIndices, hits)
    ensures var n := |hits| + 1;
            if n % CHECKPOINT_STRIDE == 0
            then AreCheckpointsOf(seekAbsolutes + [hit.pos], seekIndices + [n - 1], hits + [hit])
            else AreCheckpointsOf(seekAbsolutes, seekIndices, hits + [hit])
  {
    var more := hits + [hit];
    if |more| % CHECKPOINT_STRIDE == 0 {
      var k := |hits| / CHECKPOINT_STRIDE;
      assert CHECKPOINT_STRIDE * (k + 1) == |more|;
    }
  }

  lemma WithPostEncodes(pl: PostingList, hits: seq<Hit>, dec: Decoration, pos: int)
    requires Encodes(pl, hits)
    ensures Encodes(WithPost(pl, dec, pos), hits + [Hit(pos, dec)])
  {
    hide EncodePost, ArePostsOf, AreCheckpointsOf;
    var hit := Hit(pos, dec);
    assert |pl.posts| == |hits| by { SameLength(pl.posts, hits); }
    AnotherPost(pl.posts, hits, hit);
    AnotherCheckpoint(pl.seekAbsolutes, pl.seekIndices, hits, hit);
    assert (hits + [hit])[..|hits|] == hits;
  }

  lemma SameLength(posts: seq<nat>, hits: seq<Hit>)
    requires ArePostsOf(posts, hits)
    ensures |posts| == |hits|
  {
  }

  // the document count, kept by addPostDirect
  function WithDoc(pl: PostingList, docId: int): PostingList {
    if pl.lastDocId == docId then pl else pl.(numDocs := pl.numDocs + 1, lastDocId := docId)
  }

  function EntryOrEmpty(dictionary: map<string, PostingList>, term: string): PostingList {
    if term in dictionary then dictionary[term] else EMPTY_LIST
  }

  // the dictionary entry of `term` for the given hits: absent when there are none
  ghost predicate IsEntry(dictionary: map<string, PostingList>, term: string,
                          hits: seq<Hit>, numDocs: nat, lastDocId: int)
  {
    if hits == [] then term !in dictionary
    else
      && term in dictionary
      && Encodes(dictionary[term], hits)
      && dictionary[term].numDocs == numDocs
      && dictionary[term].lastDocId == lastDocId
  }

  ghost predicate IsDictionaryOf(dictionary: map<string, PostingList>, docs: seq<Document>) {
    forall term :: IsEntry(dictionary, term, Hits(docs, term), DocCount(docs, term), LastDoc(docs, term))
  }

  // the entry of `term` after the first tokens of the document that follows `docs`
  ghost predicate IsEntryDuring(dictionary: map<string, PostingList>, docCache: set<string>, term: string,
                                docs: seq<Document>, tokens: Document)
  {
    var words := WordHits(tokens, Start(docs, |docs|), term);
    && (term in docCache <==> words != [])
    && if words == []
       then IsEntry(dictionary, term, Hits(docs, term), DocCount(docs, term), LastDoc(docs, term))
       else IsEntry(dictionary, term, Hits(docs, term) + words, DocCount(docs, term) + 1, |docs|)
  }

  ghost predicate IsDictionaryDuring(dictionary: map<string, PostingList>, docCache: set<string>,
                                     docs: seq<Document>, tokens: Document)
  {
    forall term :: IsEntryDuring(dictionary, docCache, term, docs, tokens)
  }

  lemma NoTokensYet(dictionary: map<string, PostingList>, docs: seq<Document>)
    requires IsDictionaryOf(dictionary, docs)
    ensures IsDictionaryDuring(dictionary, {}, docs, [])
  {
    hide Hits, Start, DocCount, LastDoc;
    forall t ensures IsEntryDuring(dictionary, {}, t, docs, []) {
      assert IsEntry(dictionary, t, Hits(docs, t), DocCount(docs, t), LastDoc(docs, t));
    }
  }

  lemma TermIsCached(dictionary: map<string, PostingList>, docCache: set<string>, term: string,
                     docs: seq<Document>, tokens: Document)
    requires IsDictionaryDuring(dictionary, docCache, docs, tokens)
    ensures term in docCache ==> term in dictionary
  {
    assert IsEntryDuring(dictionary, docCache, term, docs, tokens);
  }

  lemma {:induction false} LastDocBound(docs: seq<Document>, term: string)
    ensures -1 <= LastDoc(docs, term) < |docs|
  {
    if docs != [] {
      LastDocBound(docs[..|docs| - 1], term);
    }
  }

  lemma StartOfNextDoc(docs: seq<Document>, doc: Document)
    ensures Start(docs + [doc], |docs|) == Start(docs, |docs|)
    ensures Start(docs + [doc], |docs| + 1) == Start(docs, |docs|) + |doc| + 1
  {
    assert (docs + [doc])[..|docs|] == docs;
    StartOfPrefix(docs + [doc], |docs|, |docs|);
  }

  // the hits of a term once the words and the end of a further document are in
  lemma HitsOfNextDoc(docs: seq<Document>, doc: Document, term: string)
    ensures Hits(docs + [doc], term) ==
            Hits(docs, term) + DocHits(doc, Start(docs, |docs|), term)
    ensures HasTerm(doc, term) <==> WordHits(doc, Start(docs, |docs|), term) != []
    ensures DocCount(docs + [doc], term) == DocCount(docs, term) + if HasTerm(doc, term) then 1 else 0
    ensures LastDoc(docs + [doc], term) == if HasTerm(doc, term) then |docs| else LastDoc(docs, term)
  {
    assert (docs + [doc])[..|docs|] == docs;
    StartOfNextDoc(docs, doc);
    WordHitsEmpty(doc, Start(docs, |docs|), term);
  }

  lemma TokensInOrder(page: Page)
    ensures Tokens(page) == [] + Tag(Runs(page.url), Url) + Tag(FoldAll(page.titleWords), Title) +
                            Tag(FoldAll(page.words), Body) + Tag(FoldAll(page.anchorText), Anchor)
  {
  }

  class IndexBuilder {
    var dictionary: map<string, PostingList>
    var documents: seq<DocumentMetadata>
    var globalPositionCounter: int
    ghost var pages: seq<Page>  // the pages added so far

    ghost predicate Valid()
      reads this
    {
      && AreMetadataOf(documents, pages)
      && globalPositionCounter == Start(Corpus(pages), |pages|)
      && IsDictionaryOf(dictionary, Corpus(pages))
    }

    constructor ()
      ensures Valid() && pages == []
    {
      dictionary := map[];
      documents := [];
      globalPositionCounter := 0;
      pages := [];
    }

    // getPostingList: the list of `term`, created empty on first use
    method GetPostingList(term: string) returns (pl: PostingList)
      modifies this`dictionary
      ensures pl == EntryOrEmpty(old(dictionary), term)
      ensures dictionary == old(dictionary)[term := pl]
    {
      if term !in dictionary {
        dictionary := dictionary[term := EMPTY_LIST];
      }
      pl := dictionary[term];
      assert dictionary == dictionary[term := pl];
    }

    method AddPostDirect(term: string, dec: Decoration, docId: int)
      requires term in dictionary
      modifies this`dictionary, this`globalPositionCounter
      ensures globalPositionCounter == old(globalPositionCounter) + 1
      ensures dictionary == old(dictionary)[
                term := WithPost(WithDoc(old(dictionary[term]), docId), dec, old(globalPositionCounter))]
    {
      var pl := dictionary[term];
      if pl.lastDocId != docId {
        pl := pl.(numDocs := pl.numDocs + 1, lastDocId := docId);
      }
      var delta := globalPositionCounter - pl.lastAbsPos;
      pl := pl.(lastAbsPos := globalPositionCounter);
      pl := AddPost(pl, EncodePost(dec, delta));
      if |pl.posts| % CHECKPOINT_STRIDE == 0 {
        pl := AddCheckpoint(pl, pl.lastAbsPos);
      }
      if dec != Eod {
        pl := pl.(wordOccurrences := pl.wordOccurrences + 1);
      }
      dictionary := dictionary[term := pl];
      globalPositionCounter := globalPositionCounter + 1;
    }

    // emit_post: the next token of the document that follows `docs`
    method EmitPost(term: string, dec: Decoration, docCache: set<string>,
                    ghost docs: seq<Document>, ghost tokens: Document)
      returns (docCache': set<string>)
      requires IsDictionaryDuring(dictionary, docCache, docs, tokens)
      requires globalPositionCounter == Start(docs, |docs|) + |tokens|
      requires |documents| == |docs|
      requires IsField(dec)
      modifies this`dictionary, this`globalPositionCounter
      ensures IsDictionaryDuring(dictionary, docCache', docs, tokens + [Token(term, dec)])
      ensures globalPositionCounter == old(globalPositionCounter) + 1
    {
      hide IsEntry, Start, WithPost, WithDoc, WordHits;
      docCache' := docCache;
      TermIsCached(dictionary, docCache, term, docs, tokens);
      if term !in docCache {
        var _ := GetPostingList(term);
        docCache' := docCache + {term};
      }
      AddPostDirect(term, dec, |documents|);
      forall t ensures IsEntryDuring(dictionary, docCache', t, docs, tokens + [Token(term, dec)]) {
        EmitKeepsEntries(old(dictionary), docCache, dictionary, docCache', term, dec, t, docs, tokens);
      }
    }

    // the loop over one field; URL parts come as they are, the words of the other fields folded
    method EmitField(words: seq<string>, dec: Decoration, fold: bool, docCache: set<string>,
                     ghost docs: seq<Document>, ghost tokens: Document)
      returns (docCache': set<string>)
      requires IsDictionaryDuring(dictionary, docCache, docs, tokens)
      requires globalPositionCounter == Start(docs, |docs|) + |tokens|
      requires |documents| == |docs|
      requires IsField(dec)
      modifies this`dictionary, this`globalPositionCounter
      ensures IsDictionaryDuring(dictionary, docCache', docs,
                                 tokens + Tag(if fold then FoldAll(words) else words, dec))
      ensures globalPositionCounter == old(globalPositionCounter) + |words|
    {
      ghost var emitted := Tag(if fold then FoldAll(words) else words, dec);
      docCache' := docCache;
      assert tokens + emitted[..0] == tokens;
      for i := 0 to |words|
        invariant globalPositionCounter == old(globalPositionCounter) + i
        invariant IsDictionaryDuring(dictionary, docCache', docs, tokens + emitted[..i])
      {
        var term := if fold then Fold(words[i]) else words[i];
        assert tokens + emitted[..i + 1] == tokens + emitted[..i] + [Token(term, dec)];
        docCache' := EmitPost(term, dec, docCache', docs, tokens + emitted[..i]);
      }
      assert emitted[..|words|] == emitted;
    }

    method EndTerm(term: string)
      requires term in dictionary
      modifies this`dictionary
      ensures dictionary == old(dictionary)[term := WithPost(old(dictionary[term]), Eod, globalPositionCounter)]
    {
      hide EncodePost;
      var pl := dictionary[term];
      var delta := globalPositionCounter - pl.lastAbsPos;
      pl := AddPost(pl, EncodePost(Eod, delta)).(lastAbsPos := globalPositionCounter);
      if |pl.posts| % CHECKPOINT_STRIDE == 0 {
        pl := AddCheckpoint(pl, pl.lastAbsPos);
      }
      dictionary := dictionary[term := pl];
    }

    // the loop over doc_cache: one end-of-document post for each term of the document,
    // in any order, all at the same position
    method EmitEndOfDocument(docCache: set<string>, ghost docs: seq<Document>, ghost doc: Document)
      requires IsDictionaryDuring(dictionary, docCache, docs, doc)
      requires globalPositionCounter == Start(docs, |docs|) + |doc|
      modifies this`dictionary
      ensures IsDictionaryOf(dictionary, docs + [doc])
    {
      hide WithPost, IsEntry, Start, WordHits;
      var todo := docCache;
      ghost var words := dictionary;
      forall t | t in docCache ensures t in words {
        TermIsCached(words, docCache, t, docs, doc);
      }
      while todo != {}
        invariant todo <= docCache
        invariant words.Keys == dictionary.Keys
        invariant forall t :: t in words && (t !in docCache || t in todo) ==> dictionary[t] == words[t]
        invariant forall t :: t in docCache && t !in todo ==>
                                dictionary[t] == WithPost(words[t], Eod, globalPositionCounter)
        decreases todo
      {
        var term :| term in todo;
        todo := todo - {term};
        EndTerm(term);
      }
      forall t
        ensures IsEntry(dictionary, t, Hits(docs + [doc], t), DocCount(docs + [doc], t), LastDoc(docs + [doc], t))
      {
        assert IsEntryDuring(words, docCache, t, docs, doc);
        EndKeepsEntries(words, docCache, dictionary, t, docs, doc, globalPositionCounter);
      }
    }

    // the four field loops of addDocument
    method EmitFields(page: Page, ghost docs: seq<Document>) returns (docCache: set<string>)
      requires IsDictionaryOf(dictionary, docs)
      requires globalPositionCounter == Start(docs, |docs|)
      requires |documents| == |docs|
      modifies this`dictionary, this`globalPositionCounter
      ensures IsDictionaryDuring(dictionary, docCache, docs, Tokens(page))
      ensures globalPositionCounter == old(globalPositionCounter) + |Tokens(page)|
    {
      hide IsDictionaryOf, IsDictionaryDuring, Start, Tokens, Runs, FoldAll, Tag;
      NoTokensYet(dictionary, docs);
      TokensInOrder(page);
      docCache := {};
      ghost var tokens: Document := [];
      var urlParts := SplitURL(page.url);
      docCache := EmitField(urlParts, Url, false, docCache, docs, tokens);
      tokens := tokens + Tag(urlParts, Url);
      docCache := EmitField(page.titleWords, Title, true, docCache, docs, tokens);
      tokens := tokens + Tag(FoldAll(page.titleWords), Title);
      docCache := EmitField(page.words, Body, true, docCache, docs, tokens);
      tokens := tokens + Tag(FoldAll(page.words), Body);
      docCache := EmitField(page.anchorText, Anchor, true, docCache, docs, tokens);
    }

    method AddDocument(page: Page)
      requires Valid()
      modifies this
      ensures Valid() && pages == old(pages) + [page]
    {
      hide IsDictionaryOf, IsDictionaryDuring, Start, Tokens;
      ghost var docs := Corpus(pages);
      assert Corpus(pages + [page]) == docs + [Tokens(page)];
      StartOfNextDoc(docs, Tokens(page));
      MetadataOfNextPage(pages, page);

      var startPosition := globalPositionCounter;
      var docCache := EmitFields(page, docs);
      var endPosition := globalPositionCounter;
      EmitEndOfDocument(docCache, docs, Tokens(page));
      globalPositionCounter := globalPositionCounter + 1;
      documents := documents + [DocumentMetadata(
        |documents|, page.url, page.titleWords, TruncateToInt(page.distanceFromSeedlist), |page.words|,
        startPosition, endPosition, page.pageFileRank, page.pageFileNum, page.pageFileIndex)];
      pages := pages + [page];
    }
  }

  lemma MetadataOfNextPage(pages: seq<Page>, page: Page)
    ensures forall i :: 0 <= i < |pages| ==> MetadataOf(pages + [page], i) == MetadataOf(pages, i)
  {
    hide Tokens;
    var more := Corpus(pages + [page]);
    assert more[..|pages|] == Corpus(pages);
    forall i | 0 <= i < |pages| ensures MetadataOf(pages + [page], i) == MetadataOf(pages, i) {
      StartOfPrefix(more, |pages|, i);
    }
  }

  lemma EmitKeepsEntries(before: map<string, PostingList>, cacheBefore: set<string>,
                         after: map<string, PostingList>, cacheAfter: set<string>,
                         term: string, dec: Decoration, t: string, docs: seq<Document>, tokens: Document)
    requires IsEntryDuring(before, cacheBefore, t, docs, tokens)
    requires IsField(dec) && cacheAfter == cacheBefore + {term}
    requires after == before[term := WithPost(WithDoc(EntryOrEmpty(before, term), |docs|), dec,
                                              Start(docs, |docs|) + |tokens|)]
    ensures IsEntryDuring(after, cacheAfter, t, docs, tokens + [Token(term, dec)])
  {
    hide Encodes, Hits, WordHits, DocCount, LastDoc, WithPost, WithDoc, Start;
    WordHitsOfNextToken(tokens, Token(term, dec), Start(docs, |docs|), t);
    var words := WordHits(tokens, Start(docs, |docs|), t);
    if t == term {
      NextPostOfEntry(before, cacheBefore, term, dec, docs, tokens);
    } else {
      assert words + [] == words;
    }
  }

  lemma NextPostOfEntry(before: map<string, PostingList>, docCache: set<string>, t: string, dec: Decoration,
                        docs: seq<Document>, tokens: Document)
    requires IsEntryDuring(before, docCache, t, docs, tokens)
    ensures var pos := Start(docs, |docs|) + |tokens|;
            var list := WithPost(WithDoc(EntryOrEmpty(before, t), |docs|), dec, pos);
            && Encodes(list, Hits(docs, t) + (WordHits(tokens, Start(docs, |docs|), t) + [Hit(pos, dec)]))
            && list.numDocs == DocCount(docs, t) + 1
            && list.lastDocId == |docs|
  {
    hide Encodes, Hits, WordHits, DocCount, LastDoc, WithPost, WithDoc, Start;
    var words := WordHits(tokens, Start(docs, |docs|), t);
    var hits := Hits(docs, t) + words;
    var hit := Hit(Start(docs, |docs|) + |tokens|, dec);
    var list := EntryOrEmpty(before, t);
    assert words == [] ==> hits == Hits(docs, t);
    NextPostCounts(list, words, docs, t);
    WithPostEncodes(WithDoc(list, |docs|), hits, dec, hit.pos);
    assert Hits(docs, t) + (words + [hit]) == hits + [hit];
  }

  lemma WordHitsOfNextToken(tokens: Document, token: Token, base: int, t: string)
    requires IsField(token.dec)
    ensures WordHits(tokens + [token], base, t) ==
            WordHits(tokens, base, t) + if token.term == t then [Hit(base + |tokens|, token.dec)] else []
  {
    assert (tokens + [token])[..|tokens|] == tokens;
  }

  // the counts of a list that is about to get a post in document |docs|
  lemma NextPostCounts(pl: PostingList, words: seq<Hit>, docs: seq<Document>, t: string)
    requires if words != [] then pl.numDocs == DocCount(docs, t) + 1 && pl.lastDocId == |docs|
             else if Hits(docs, t) != [] then pl.numDocs == DocCount(docs, t) && pl.lastDocId == LastDoc(docs, t)
             else pl == EMPTY_LIST
    requires Hits(docs, t) + words != [] ==> Encodes(pl, Hits(docs, t) + words)
    ensures WithDoc(pl, |docs|).numDocs == DocCount(docs, t) + 1
    ensures WithDoc(pl, |docs|).lastDocId == |docs|
    ensures Encodes(WithDoc(pl, |docs|), Hits(docs, t) + words)
  {
    hide Hits, DocCount, LastDoc;
    LastDocBound(docs, t);
    if Hits(docs, t) == [] {
      DocCountOfNone(docs, t);
    }
    assert Encodes(EMPTY_LIST, []);
  }

  // a term without hits occurs in no document
  lemma {:induction false} DocCountOfNone(docs: seq<Document>, term: string)
    requires Hits(docs, term) == []
    ensures DocCount(docs, term) == 0 && LastDoc(docs, term) == -1
  {
    if docs != [] {
      var n := |docs| - 1;
      DocCountOfNone(docs[..n], term);
      WordHitsEmpty(docs[n], Start(docs, n), term);
    }
  }

  lemma EndKeepsEntries(words: map<string, PostingList>, docCache: set<string>, after: map<string, PostingList>,
                        t: string, docs: seq<Document>, doc: Document, pos: int)
    requires IsEntryDuring(words, docCache, t, docs, doc)
    requires pos == Start(docs, |docs|) + |doc|
    requires t in words <==> t in after
    requires t in words ==> after[t] == if t in docCache then WithPost(words[t], Eod, pos) else words[t]
    ensures IsEntry(after, t, Hits(docs + [doc], t), DocCount(docs + [doc], t), LastDoc(docs + [doc], t))
  {
    hide Encodes, Hits, WordHits, DocCount, LastDoc, WithPost, HasTerm, Start;
    HitsOfNextDoc(docs, doc, t);
    var own := WordHits(doc, Start(docs, |docs|), t);
    if own != [] {
      WithPostEncodes(words[t], Hits(docs, t) + own, Eod, pos);
      assert Hits(docs, t) + own + [Hit(pos, Eod)] == Hits(docs, t) + (own + [Hit(pos, Eod)]);
    } else {
      assert Hits(docs, t) + own == Hits(docs, t);
    }
  }
}
