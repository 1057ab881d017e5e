/** From a builder to a mapped index: the blob written from the state that a builder leaves
    after adding pages fits its fields, and what is read back is the index of the corpus. */
module Storage {
  import opened Wrappers
  import opened Text
  import opened Bytes
  import opened Posting
  import opened Positions
  import opened Pages
  import opened IndexBuilding
  import opened IndexReading
  import opened BlobFormat
  import opened BlobWriting
  import opened BlobReading
  import opened Queries
  import opened Searching
  import opened Engine

  // the entries of the dictionary, one for each term, in any order
  ghost predicate AreEntriesOf(entries: seq<Entry>, dictionary: map<string, PostingList>, h: string -> nat) {
    && (forall e :: e in entries ==> e.term in dictionary && e.pl == dictionary[e.term] && e.hash == h(e.term))
    && (forall term :: term in dictionary ==> exists i :: 0 <= i < |entries| && entries[i].term == term)
    && (forall i, j :: 0 <= i < j < |entries| ==> entries[i].term != entries[j].term)
  }

  // the loop over the dictionary
  method GatherEntries(dictionary: map<string, PostingList>, h: string -> nat) returns (entries: seq<Entry>)
    ensures AreEntriesOf(entries, dictionary, h)
  {
    entries := [];
    var todo := dictionary.Keys;
    while todo != {}
      invariant todo <= dictionary.Keys
      invariant forall i :: 0 <= i < |entries| ==>
                  && entries[i].term in dictionary && entries[i].term !in todo
                  && entries[i].pl == dictionary[entries[i].term] && entries[i].hash == h(entries[i].term)
      invariant forall t :: t in dictionary && t !in todo ==>
                  exists i :: 0 <= i < |entries| && entries[i].term == t
      invariant forall i, j :: 0 <= i < j < |entries| ==> entries[i].term != entries[j].term
      decreases todo
    {
      var term :| term in todo;
      ghost var before := entries;
      entries := entries + [Entry(term, dictionary[term], h(term))];
      todo := todo - {term};
      forall t | t in dictionary && t !in todo
        ensures exists i :: 0 <= i < |entries| && entries[i].term == t
      {
        if t == term {
          assert entries[|before|].term == t;
        } else {
          var i :| 0 <= i < |before| && before[i].term == t;
          assert entries[i].term == t;
        }
      }
    }
  }

  // bytes in every string, and no NUL in a word
  ghost predicate IsStorable(p: Page) {
    && IsByteString(p.url)
    && IsU64(p.pageFileRank) && IsU64(p.pageFileNum) && IsU64(p.pageFileIndex)
    && AreTerms(p.titleWords) && AreTerms(p.words) && AreTerms(p.anchorText)
  }

  ghost predicate AreTerms(words: seq<string>) { forall w :: w in words ==> IsTerm(w) }

  lemma FoldIsTerm(w: string)
    requires IsTerm(w)
    ensures IsTerm(Fold(w))
  {
  }

  lemma FieldHasTerms(p: Page, dec: Decoration, term: string)
    requires IsStorable(p) && term in Field(p, dec)
    ensures IsTerm(term)
  {
    hide Runs;
    match dec {
      case Url => RunsAreWords(p.url);
      case Title => FoldedIsTerm(p.titleWords, term);
      case Body => FoldedIsTerm(p.words, term);
      case Anchor => FoldedIsTerm(p.anchorText, term);
      case _ =>
    }
  }

  lemma FoldedIsTerm(words: seq<string>, term: string)
    requires term in FoldAll(words) && AreTerms(words)
    ensures IsTerm(term)
  {
    hide IsTerm;
    var i :| 0 <= i < |words| && FoldAll(words)[i] == term;
    FoldIsTerm(words[i]);
  }

  lemma DictionaryHasTerms(pages: seq<Page>, term: string)
    requires (forall p :: p in pages ==> IsStorable(p)) && Hits(Corpus(pages), term) != []
    ensures IsTerm(term)
  {
    hide Start, Hits, Tokens, IsTerm, IsStorable, Field;
    var docs := Corpus(pages);
    HitsAre(docs, term);
    assert Hits(docs, term)[0] in Hits(docs, term);
    assert IsHit(docs, term, Hits(docs, term)[0]);
    var d: nat :| IsHitIn(docs, d, term, Hits(docs, term)[0]);
    TermIsOfPage(pages, d, term);
  }

  lemma TermIsOfPage(pages: seq<Page>, d: nat, term: string)
    requires d < |pages| && HasTerm(Tokens(pages[d]), term) && IsStorable(pages[d])
    ensures IsTerm(term)
  {
    hide IsTerm, IsStorable, Tokens, Field, FieldOffset;
    var p := pages[d];
    var k :| 0 <= k < |Tokens(p)| && Tokens(p)[k].term == term;
    var dec := Tokens(p)[k].dec;
    TokenIsFieldWord(p, k, dec);
    FieldHasTerms(p, dec, term);
  }

  // ---- the numbers of a posting list

  lemma {:induction false} IncreasingCount(hits: seq<Hit>)
    requires Increasing(hits) && forall h :: h in hits ==> 0 <= h.pos
    ensures hits != [] ==> |hits| <= hits[|hits| - 1].pos + 1
  {
    if |hits| > 1 {
      var n := |hits| - 1;
      IncreasingCount(hits[..n]);
      assert hits[n - 1].pos < hits[n].pos;
    } else if hits != [] {
      assert hits[0] in hits;
    }
  }

  lemma {:induction false} WordCountBound(hits: seq<Hit>)
    ensures WordCount(hits) <= |hits|
  {
    if hits != [] {
      WordCountBound(hits[..|hits| - 1]);
    }
  }

  lemma {:induction false} DocCountBound(docs: seq<Document>, term: string)
    ensures DocCount(docs, term) <= |docs|
  {
    if docs != [] {
      DocCountBound(docs[..|docs| - 1], term);
    }
  }

  lemma {:induction false} StartBound(docs: seq<Document>, i: nat)
    requires i <= |docs|
    ensures i <= Start(docs, i)
  {
    if i > 0 {
      StartBound(docs, i - 1);
    }
  }

  lemma EncodedNumbersFit(pl: PostingList, hits: seq<Hit>)
    requires Encodes(pl, hits) && Increasing(hits) && hits != []
    requires forall h :: h in hits ==> 0 <= h.pos < INT_MAX
    ensures |pl.posts| <= INT_MAX && |pl.seekAbsolutes| == |pl.seekIndices| <= INT_MAX
    ensures 0 <= pl.lastAbsPos < INT_MAX && 0 <= pl.wordOccurrences <= INT_MAX
  {
    hide EncodePost, WordCount, Increasing;
    IncreasingCount(hits);
    WordCountBound(hits);
    assert hits[|hits| - 1] in hits;
  }

  lemma EncodedPostsFit(pl: PostingList, hits: seq<Hit>)
    requires ArePostsOf(pl.posts, hits)
    ensures forall p :: p in pl.posts ==> IsU32(p)
  {
    hide EncodePost;
  }

  lemma EncodedCheckpointsFit(pl: PostingList, hits: seq<Hit>)
    requires AreCheckpointsOf(pl.seekAbsolutes, pl.seekIndices, hits) && |hits| <= INT_MAX
    requires forall h :: h in hits ==> 0 <= h.pos < INT_MAX
    ensures forall a :: a in pl.seekAbsolutes ==> IsI32(a)
    ensures forall i :: i in pl.seekIndices ==> IsI32(i)
  {
    forall k | 0 <= k < |pl.seekAbsolutes|
      ensures 0 <= pl.seekAbsolutes[k] < INT_MAX && 0 <= pl.seekIndices[k] < INT_MAX
    {
      assert hits[CHECKPOINT_STRIDE * (k + 1) - 1] in hits;
    }
  }

  lemma EncodedListFits(pl: PostingList, hits: seq<Hit>, numDocs: nat, lastDocId: int)
    requires Encodes(pl, hits) && Increasing(hits) && hits != []
    requires forall h :: h in hits ==> 0 <= h.pos < INT_MAX
    requires pl.numDocs == numDocs <= INT_MAX && pl.lastDocId == lastDocId && -1 <= lastDocId < INT_MAX
    ensures FitsPosting(pl)
  {
    hide ArePostsOf, AreCheckpointsOf, WordCount, Increasing;
    EncodedNumbersFit(pl, hits);
    EncodedPostsFit(pl, hits);
    EncodedCheckpointsFit(pl, hits) by { assert |hits| <= INT_MAX by { SameLength(pl.posts, hits); } }
  }

  lemma BuiltListFits(dictionary: map<string, PostingList>, docs: seq<Document>, term: string)
    requires IsDictionaryOf(dictionary, docs) && Start(docs, |docs|) <= INT_MAX && term in dictionary
    ensures Hits(docs, term) != [] && FitsPosting(dictionary[term])
  {
    hide Hits, DocCount, LastDoc, Start, Encodes, FitsPosting, Increasing;
    HitsAre(docs, term);
    assert IsEntry(dictionary, term, Hits(docs, term), DocCount(docs, term), LastDoc(docs, term));
    DocCountBound(docs, term);
    LastDocBound(docs, term);
    StartBound(docs, |docs|);
    EncodedListFits(dictionary[term], Hits(docs, term), DocCount(docs, term), LastDoc(docs, term));
  }

  // ---- the numbers of a document

  lemma DocumentFits(pages: seq<Page>, i: nat)
    requires i < |pages| && IsStorable(pages[i])
    requires Start(Corpus(pages), |pages|) <= INT_MAX
    ensures FitsDocument(MetadataOf(pages, i))
  {
    hide Start, Tokens;
    var docs := Corpus(pages);
    RangesAreDisjoint(docs, i, |docs|);
    StartBound(docs, |docs|);
    BodyIsInPage(pages, i);
  }

  lemma RangeFits(d: DocumentMetadata)
    requires FitsDocument(d)
    ensures FitsRange(d)
  {
  }

  lemma BodyIsInPage(pages: seq<Page>, i: nat)
    requires i < |pages|
    ensures Start(Corpus(pages), i) + |pages[i].words| <= End(Corpus(pages), i) && 0 <= Start(Corpus(pages), i)
  {
    hide Start;
  }

  // offsets into the whole blob fit 64 bits, which is all that a search needs
  predicate KeepsWidths(s: Snapshot) {
    IsU64(TotalSize(s))
  }

  // offsets into the string arena and the title references fit 32 bits, which the metadata
  // needs besides
  predicate KeepsArenaWidths(s: Snapshot) {
    IsU32(ArenaSize(s.documents)) && IsU32(|TitleRefs(s.documents)|)
  }

  // the state of a builder fits the blob when its strings do, the position line stays within
  // an int and the blob keeps within 64 bits; its metadata too when the arenas do within 32
  lemma BuiltStateFits(s: Snapshot, dictionary: map<string, PostingList>, pages: seq<Page>, h: string -> nat)
    requires AreMetadataOf(s.documents, pages) && IsDictionaryOf(dictionary, Corpus(pages))
    requires AreEntriesOf(s.entries, dictionary, h) && (forall term :: IsU64(h(term)))
    requires Start(Corpus(pages), |pages|) <= INT_MAX && forall p :: p in pages ==> IsStorable(p)
    requires KeepsWidths(s)
    ensures FitsIndex(s) && HashedBy(s, h)
    ensures KeepsArenaWidths(s) ==> Fits(s)
  {
    hide TotalSize, ArenaSize, TitleRefs, Start, Tokens, FitsDocument, FitsRange, FitsPosting, IsStorable,
         IsDictionaryOf, IsTerm, MetadataOf;
    StartBound(Corpus(pages), |pages|);
    forall d | d in s.documents ensures FitsDocument(d) && FitsRange(d) {
      var i :| 0 <= i < |s.documents| && s.documents[i] == d;
      assert pages[i] in pages;
      DocumentFits(pages, i);
      RangeFits(d);
    }
    forall e | e in s.entries ensures FitsEntry(e) {
      BuiltListFits(dictionary, Corpus(pages), e.term);
      DictionaryHasTerms(pages, e.term);
    }
  }

  // ---- reading back

  // every read of the mapped index gives what the index of the corpus holds
  ghost predicate Mirrors(index: BlobIndex, s: Snapshot, ix: Index)
    reads index
  {
    && index.Holds(s) && FitsIndex(s)
    && |ix.ranges| == |s.documents|
    && (forall d :: 0 <= d < |ix.ranges| ==>
         ix.ranges[d] == Range(s.documents[d].startPosition, s.documents[d].endPosition))
    && (forall term :: (term in ix.lists <==> HasEntry(s, term)) &&
         (HasEntry(s, term) ==> ix.lists[term] == s.entries[EntryIndex(s, term)].pl))
  }

  // the index as it is served: its range and list reads, answered from the bytes
  method ServeRange(index: BlobIndex, docId: int, ghost s: Snapshot, ghost ix: Index)
    returns (ok: bool, start: int, end: int)
    requires Mirrors(index, s, ix)
    ensures ok <==> 0 <= docId < |ix.ranges|
    ensures ok ==> Range(start, end) == ix.ranges[docId]
  {
    hide FitsIndex, BlobIndex.Holds;
    ServedIsMapped(index, s, ix);
    ok, start, end := index.GetDocumentRange(docId, s);
  }

  lemma ServedIsMapped(index: BlobIndex, s: Snapshot, ix: Index)
    requires Mirrors(index, s, ix)
    ensures index.mapped
  {
    hide FitsIndex, Blob, TitleRefsOffset, DictOffset, PostingArenaOffset, StringArenaOffset;
  }

  method ServeList(index: BlobIndex, term: string, h: string -> nat, ghost s: Snapshot, ghost ix: Index)
    returns (r: Option<PostingList>)
    requires Mirrors(index, s, ix) && HashedBy(s, h) && IsTerm(term)
    ensures r == if term in ix.lists then Some(ix.lists[term]) else None
  {
    hide FitsIndex, BlobIndex.Holds, HasEntry, EntryIndex;
    ServedIsMapped(index, s, ix);
    assert term in ix.lists <==> HasEntry(s, term);
    TermIsWhole(term);
    r := index.GetPostingList(term, h(term), h, s);
  }

  lemma EntriesMirror(s: Snapshot, dictionary: map<string, PostingList>, h: string -> nat, term: string)
    requires AreEntriesOf(s.entries, dictionary, h)
    ensures term in dictionary <==> HasEntry(s, term)
    ensures HasEntry(s, term) ==> dictionary[term] == s.entries[EntryIndex(s, term)].pl
  {
    if HasEntry(s, term) {
      assert s.entries[EntryIndex(s, term)] in s.entries;
    }
  }

  // add the pages, write the blob, map it: every range and every list read from the bytes is
  // that of an index that serves the corpus
  method BuildAndLoad(pages: seq<Page>, h: string -> nat)
    returns (index: BlobIndex, ok: bool, s: Snapshot, ghost ix: Index)
    requires Indexable(Corpus(pages))
    requires (forall p :: p in pages ==> IsStorable(p)) && (forall term :: IsU64(h(term)))
    ensures fresh(index)
    ensures KeepsWidths(s) ==>
              ok && Serves(ix, Corpus(pages)) && Mirrors(index, s, ix) && HashedBy(s, h)
    ensures KeepsWidths(s) && KeepsArenaWidths(s) ==> Fits(s)
    ensures AreMetadataOf(s.documents, pages)
  {
    hide KeepsArenaWidths, FitsMetadata, Start, Tokens, IsDictionaryOf, FitsIndex, Serves, BlobIndex.Holds, TotalSize,
         ArenaSize, TitleRefs, IsStorable, HasEntry, EntryIndex, AreEntriesOf, HashedBy, Blob;
    var builder := BuildIndex(pages);
    var entries := GatherEntries(builder.dictionary, h);
    s := Snapshot(builder.documents, entries, builder.globalPositionCounter);
    ix := IndexOf(builder.documents, builder.dictionary);
    BuiltIndexServes(builder.documents, builder.dictionary, pages);
    var blob := WriteBlobV4(s);
    index := new BlobIndex();
    if KeepsWidths(s) {
      BuiltStateFits(s, builder.dictionary, pages, h);
    }
    ok := index.LoadBlob(Some(blob));
    forall term
      ensures term in ix.lists <==> HasEntry(s, term)
      ensures HasEntry(s, term) ==> ix.lists[term] == s.entries[EntryIndex(s, term)].pl
    {
      EntriesMirror(s, builder.dictionary, h, term);
    }
  }

  // ---- searching the mapped index

  // what a search reads of the mapped index: every range, and the lists of its words
  method ServeTerms(index: BlobIndex, terms: set<string>, h: string -> nat, ghost s: Snapshot, ghost ix: Index)
    returns (served: Index)
    requires Mirrors(index, s, ix) && HashedBy(s, h) && forall t :: t in terms ==> IsTerm(t)
    ensures served.ranges == ix.ranges
    ensures forall t :: t in terms ==> (t in served.lists <==> t in ix.lists)
    ensures forall t :: t in terms && t in ix.lists ==> served.lists[t] == ix.lists[t]
  {
    hide Mirrors, HashedBy, IsTerm;
    var n := CountRanges(index, s, ix);
    var ranges: seq<Range> := [];
    for d := 0 to n
      invariant ranges == ix.ranges[..d]
    {
      var ok, start, end := ServeRange(index, d, s, ix);
      ranges := ranges + [Range(start, end)];
    }
    var lists: map<string, PostingList> := map[];
    var todo := terms;
    while todo != {}
      invariant todo <= terms
      invariant forall t :: t in terms - todo ==> (t in lists <==> t in ix.lists)
      invariant forall t :: t in terms - todo && t in ix.lists ==> lists[t] == ix.lists[t]
      invariant forall t :: t in lists ==> t in terms - todo
      decreases todo
    {
      var term :| term in todo;
      var list := ServeList(index, term, h, s, ix);
      if list.Some? {
        lists := lists[term := list.value];
      }
      todo := todo - {term};
    }
    served := Index(ranges, lists);
  }

  method CountRanges(index: BlobIndex, ghost s: Snapshot, ghost ix: Index) returns (n: nat)
    requires Mirrors(index, s, ix)
    ensures n == |ix.ranges|
  {
    hide FitsIndex;
    return index.nDocs;
  }

  lemma ServedServes(served: Index, ix: Index, docs: seq<Document>, terms: set<string>)
    requires Serves(ix, docs) && served.ranges == ix.ranges
    requires forall t :: t in terms ==> (t in served.lists <==> t in ix.lists)
    requires forall t :: t in terms && t in ix.lists ==> served.lists[t] == ix.lists[t]
    ensures ServesTerms(served, docs, terms)
  {
    hide Start, End, Hits, Decodes;
    forall d | 0 <= d < |docs| ensures ServesRange(served, docs, d) {
      assert ServesRange(ix, docs, d);
    }
    forall t | t in terms ensures ServesTerm(served, docs, t) {
      assert ServesTerm(ix, docs, t);
    }
  }

  // a search whose every range and list is read from the bytes of the blob
  method SearchBlob(index: BlobIndex, q: Query, h: string -> nat,
                    ghost docs: seq<Document>, ghost s: Snapshot, ghost ix: Index) returns (matches: seq<int>)
    requires Mirrors(index, s, ix) && HashedBy(s, h) && Serves(ix, docs)
    requires forall t :: t in Terms(q) ==> IsTerm(t)
    ensures IsFound(matches, docs, q)
    ensures Answerable(q).None? ==> matches == []
    ensures Answerable(q).Some? ==> IsAnswer(matches, docs, Answerable(q).value)
  {
    hide Mirrors, HashedBy, Serves, IsTerm, Answerable, IsAnswer, IsFound, Terms, NotsWellPlaced, ServesTerms;
    var served := ServeTerms(index, Terms(q), h, s, ix);
    ServedServes(served, ix, docs, Terms(q));
    matches := Search(q, served, docs);
  }
}
