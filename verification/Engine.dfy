/** From pages to answers: the index that a builder leaves serves its corpus, and a
    search over it is the naive boolean evaluation of the query over the pages. */
module Engine {
  import opened Text
  import opened Posting
  import opened Positions
  import opened Pages
  import opened PhraseReading
  import opened IndexBuilding
  import opened IndexReading
  import opened Queries
  import opened Searching

  // what the reader sees of a builder's state
  function IndexOf(documents: seq<DocumentMetadata>, dictionary: map<string, PostingList>): Index {
    Index(seq(|documents|, i requires 0 <= i < |documents| =>
                Range(documents[i].startPosition, documents[i].endPosition)),
          dictionary)
  }

  // a corpus that the builder's index can answer for: the position line fits an int, and
  // between neighbouring posts of a term there are fewer than 2^29 positions
  ghost predicate Indexable(docs: seq<Document>) {
    Start(docs, |docs|) <= INT_MAX && forall term: string :: GapsFit(Hits(docs, term))
  }

  // any corpus of up to 2^29 positions is one
  lemma ShortIsIndexable(docs: seq<Document>)
    requires Start(docs, |docs|) <= TWO_29
    ensures Indexable(docs)
  {
    hide Hits, Start;
    forall term: string ensures GapsFit(Hits(docs, term)) {
      HitsAre(docs, term);
      var hits := Hits(docs, term);
      forall k | 0 <= k < |hits| ensures 0 <= hits[k].pos < TWO_29 {
        assert hits[k] in hits;
      }
    }
  }

  lemma BuiltListDecodes(dictionary: map<string, PostingList>, docs: seq<Document>, term: string)
    requires IsDictionaryOf(dictionary, docs) && Hits(docs, term) != []
    ensures term in dictionary && (Decodes(dictionary[term], Hits(docs, term)) <==> GapsFit(Hits(docs, term)))
  {
    hide Hits, DocCount, LastDoc, Start, Encodes, Decodes;
    HitsAre(docs, term);
    assert IsEntry(dictionary, term, Hits(docs, term), DocCount(docs, term), LastDoc(docs, term));
    forall k | 0 <= k < |Hits(docs, term)|
      ensures 0 <= Hits(docs, term)[k].pos && Hits(docs, term)[k].dec != Other
    {
      assert Hits(docs, term)[k] in Hits(docs, term);
    }
    EncodesDecodes(dictionary[term], Hits(docs, term));
  }

  // the builder's index serves the corpus exactly when the corpus is indexable
  lemma BuiltIndexServes(documents: seq<DocumentMetadata>, dictionary: map<string, PostingList>, pages: seq<Page>)
    requires AreMetadataOf(documents, pages) && IsDictionaryOf(dictionary, Corpus(pages))
    ensures Serves(IndexOf(documents, dictionary), Corpus(pages)) <==> Indexable(Corpus(pages))
  {
    hide Hits, DocCount, LastDoc, Start, Decodes, Tokens, Encodes, GapsFit;
    var docs := Corpus(pages);
    assert GapsFit([]) by { NoGaps(); }
    forall term ensures ServesTerm(IndexOf(documents, dictionary), docs, term) <==> GapsFit(Hits(docs, term)) {
      assert IsEntry(dictionary, term, Hits(docs, term), DocCount(docs, term), LastDoc(docs, term));
      if Hits(docs, term) != [] {
        BuiltListDecodes(dictionary, docs, term);
      }
    }
    forall d | 0 <= d < |docs| ensures ServesRange(IndexOf(documents, dictionary), docs, d) {
      assert documents[d] == MetadataOf(pages, d);
    }
  }

  lemma NoGaps()
    ensures GapsFit([])
  {
  }

  // the boolean reading of a query on a page, in terms of the page's own fields
  ghost predicate Matches(q: Query, page: Page)
    decreases q
  {
    match q
    case Word(term) =>
      || term in Runs(page.url)
      || term in FoldAll(page.titleWords)
      || term in FoldAll(page.words)
      || term in FoldAll(page.anchorText)
    case Phrase(words) =>
      exists dec :: IsField(dec) && Occurs(words, Field(page, dec))
    case And(kids) => forall k | k in kids :: Matches(k, page)
    case Or(kids) => exists k | k in kids :: Matches(k, page)
    case Not(inner) => !Matches(inner, page)
  }

  // the page is found, in terms of its own fields: by what its positive children find and what
  // is under its NOT children, as `Finds` has it
  ghost predicate Found(q: Query, page: Page)
    decreases q
  {
    match q
    case Word(term) =>
      || term in Runs(page.url)
      || term in FoldAll(page.titleWords)
      || term in FoldAll(page.words)
      || term in FoldAll(page.anchorText)
    case Phrase(words) =>
      && words != []
      && (|| Occurs(words, Runs(page.url))
          || Occurs(words, FoldAll(page.titleWords))
          || Occurs(words, FoldAll(page.words))
          || Occurs(words, FoldAll(page.anchorText)))
    case And(kids) =>
      && (exists k | k in kids :: !k.Not? && HasPositive(k))
      && (forall k | k in kids ::
            if k.Not? then !Found(k.inner, page) else HasPositive(k) ==> Found(k, page))
    case Or(kids) => exists k | k in kids :: Found(k, page)
    case Not(_) => false
  }

  lemma {:induction false} FindsIsFound(q: Query, page: Page)
    ensures Finds(q, Tokens(page)) <==> Found(q, page)
    decreases q
  {
    hide Tokens, Runs, FoldAll, HasPositive, Occurs;
    match q
    case Word(term) => HasTermIsInSomeField(page, term);
    case Phrase(words) => PhraseIsInSomeField(page, words);
    case And(kids) =>
      forall k | k in kids
        ensures if k.Not? then Finds(k.inner, Tokens(page)) <==> Found(k.inner, page)
                else Finds(k, Tokens(page)) <==> Found(k, page)
      {
        FindsIsFound(if k.Not? then k.inner else k, page);
      }
    case Or(kids) =>
      forall k | k in kids ensures Finds(k, Tokens(page)) <==> Found(k, page) { FindsIsFound(k, page); }
    case Not(_) =>
  }

  lemma PhraseIsInSomeField(page: Page, words: seq<string>)
    ensures words != [] ==>
              (HasPhrase(Tokens(page), words) <==>
               || Occurs(words, Runs(page.url))
               || Occurs(words, FoldAll(page.titleWords))
               || Occurs(words, FoldAll(page.words))
               || Occurs(words, FoldAll(page.anchorText)))
  {
    hide HasPhrase, Occurs, Runs, FoldAll, Tokens;
    if words != [] {
      PhraseIsInField(page, words);
      assert Field(page, Url) == Runs(page.url) && Field(page, Title) == FoldAll(page.titleWords);
      assert Field(page, Body) == FoldAll(page.words) && Field(page, Anchor) == FoldAll(page.anchorText);
      assert IsField(Url) && IsField(Title) && IsField(Body) && IsField(Anchor);
    }
  }

  // the words stand next to each other in the field
  ghost predicate Occurs(words: seq<string>, field: seq<string>) {
    exists k :: OccursAt(words, field, k)
  }

  ghost predicate OccursAt(words: seq<string>, field: seq<string>, k: int) {
    0 <= k && k + |words| <= |field| && field[k..k + |words|] == words
  }

  // a phrase of a document is a phrase of one field of the page
  lemma PhraseIsInField(page: Page, words: seq<string>)
    requires words != []
    ensures HasPhrase(Tokens(page), words) <==>
            exists dec :: IsField(dec) && Occurs(words, Field(page, dec))
  {
    hide Tokens, Field, FieldOffset;
    if HasPhrase(Tokens(page), words) {
      var k, dec :| PhraseAt(Tokens(page), words, k, dec);
      PhraseAtField(page, words, k, dec);
    }
    forall dec, k | IsField(dec) && OccursAt(words, Field(page, dec), k)
      ensures HasPhrase(Tokens(page), words)
    {
      FieldPhraseAt(page, words, k, dec);
    }
  }

  lemma PhraseAtField(page: Page, words: seq<string>, k: int, dec: Decoration)
    requires words != [] && PhraseAt(Tokens(page), words, k, dec)
    ensures IsField(dec) && Occurs(words, Field(page, dec))
  {
    hide Tokens, Field, FieldOffset;
    assert Tokens(page)[k + 0] == Token(words[0], dec);
    var j := k - FieldOffset(page, dec);
    forall i | 0 <= i < |words|
      ensures 0 <= j + i < |Field(page, dec)| && Field(page, dec)[j + i] == words[i]
    {
      assert Tokens(page)[k + i] == Token(words[i], dec);
      TokenIsFieldWord(page, k + i, dec);
    }
    var last := |words| - 1;
    assert words[last] == words[last] && words[0] == words[0];
    assert OccursAt(words, Field(page, dec), j);
  }

  lemma FieldPhraseAt(page: Page, words: seq<string>, k: int, dec: Decoration)
    requires words != [] && IsField(dec) && OccursAt(words, Field(page, dec), k)
    ensures HasPhrase(Tokens(page), words)
  {
    hide Tokens, Field, FieldOffset;
    var at := FieldOffset(page, dec) + k;
    forall i | 0 <= i < |words|
      ensures at + i < |Tokens(page)| && Tokens(page)[at + i] == Token(words[i], dec)
    {
      assert Field(page, dec)[k..k + |words|][i] == Field(page, dec)[k + i];
      FieldWordIsToken(page, k + i, dec);
    }
    var last := |words| - 1;
    assert words[last] == words[last];
    assert PhraseAt(Tokens(page), words, at, dec);
  }

  ghost predicate PhrasesHaveWords(q: Query)
    decreases q
  {
    match q
    case Word(_) => true
    case Phrase(words) => words != []
    case And(kids) => forall k | k in kids :: PhrasesHaveWords(k)
    case Or(kids) => forall k | k in kids :: PhrasesHaveWords(k)
    case Not(inner) => PhrasesHaveWords(inner)
  }

  lemma {:induction false} EvalIsMatches(q: Query, page: Page)
    requires PhrasesHaveWords(q)
    ensures Eval(q, Tokens(page)) <==> Matches(q, page)
    decreases q
  {
    hide Tokens, Runs, FoldAll, Field;
    match q
    case Word(term) => HasTermIsInSomeField(page, term);
    case Phrase(words) => PhraseIsInField(page, words);
    case And(kids) =>
      forall k | k in kids ensures Eval(k, Tokens(page)) <==> Matches(k, page) { EvalIsMatches(k, page); }
    case Or(kids) =>
      forall k | k in kids ensures Eval(k, Tokens(page)) <==> Matches(k, page) { EvalIsMatches(k, page); }
    case Not(inner) => EvalIsMatches(inner, page);
  }

  lemma {:induction false} AnswerableHasWords(q: Query)
    ensures Answerable(q).Some? ==> PhrasesHaveWords(Answerable(q).value)
    decreases q, 1
  {
    match q
    case And(kids) => AnswerableAndHasWords(kids);
    case Or(kids) => AnswerableOrHasWords(kids);
    case _ =>
  }

  lemma {:induction false} AnswerableOrHasWords(kids: seq<Query>)
    ensures forall k :: k in AnswerableOr(kids) ==> PhrasesHaveWords(k)
    decreases kids
  {
    if kids != [] {
      AnswerableOrHasWords(kids[..|kids| - 1]);
      AnswerableHasWords(kids[|kids| - 1]);
    }
  }

  lemma {:induction false} AnswerableAndHasWords(kids: seq<Query>)
    ensures forall k :: k in AnswerableAnd(kids) ==> PhrasesHaveWords(k)
    decreases kids
  {
    if kids != [] {
      AnswerableAndHasWords(kids[..|kids| - 1]);
      AnswerableKidHasWords(kids[|kids| - 1]);
    }
  }

  lemma AnswerableKidHasWords(kid: Query)
    ensures forall k :: k in AnswerableKid(kid) ==> PhrasesHaveWords(k)
    decreases kid, 2
  {
    if kid.Not? {
      AnswerableHasWords(kid.inner);
    } else {
      AnswerableHasWords(kid);
    }
  }

  // the builder, run over a sequence of pages
  method BuildIndex(pages: seq<Page>) returns (builder: IndexBuilder)
    ensures fresh(builder) && builder.Valid() && builder.pages == pages
  {
    builder := new IndexBuilder();
    for i := 0 to |pages|
      invariant fresh(builder) && builder.Valid() && builder.pages == pages[..i]
    {
      assert pages[..i + 1] == pages[..i] + [pages[i]];
      builder.AddDocument(pages[i]);
    }
    assert pages[..|pages|] == pages;
  }

  // how often a word occurs in a field of a page, counted on the index of the pages
  method FieldFrequency(pages: seq<Page>, ix: Index, docId: int, term: string, dec: Decoration) returns (count: int)
    requires HasRanges(ix, Corpus(pages)) && ServesTerm(ix, Corpus(pages), term) && IsField(dec)
    ensures 0 <= docId < |pages| ==>
              count == (match dec
                        case Title => multiset(FoldAll(pages[docId].titleWords))[term]
                        case Body => multiset(FoldAll(pages[docId].words))[term]
                        case Anchor => multiset(FoldAll(pages[docId].anchorText))[term]
                        case _ => multiset(Runs(pages[docId].url))[term])
    ensures !(0 <= docId < |pages|) ==> count == 0
  {
    hide HasRanges, ServesTerm, Tokens, FoldAll, Runs;
    count := GetFieldTermFrequency(ix, Corpus(pages), docId, term, dec);
    if 0 <= docId < |pages| {
      FieldOccurrences(pages[docId], dec, term);
    }
  }

  ghost predicate AreMatches(matches: seq<int>, pages: seq<Page>, q: Query) {
    && (forall i, j :: 0 <= i < j < |matches| ==> matches[i] < matches[j])
    && (forall d :: d in matches <==> 0 <= d < |pages| && Matches(q, pages[d]))
  }

  lemma AnswersAreMatches(matches: seq<int>, pages: seq<Page>, q: Query)
    requires PhrasesHaveWords(q) && IsAnswer(matches, Corpus(pages), q)
    ensures AreMatches(matches, pages, q)
  {
    hide Matches, Eval, Tokens, PhrasesHaveWords;
    forall d | 0 <= d < |pages| ensures Eval(q, Corpus(pages)[d]) <==> Matches(q, pages[d]) {
      EvalIsMatches(q, pages[d]);
    }
  }

  // the pages that the query finds, in increasing order
  ghost predicate AreFound(matches: seq<int>, pages: seq<Page>, q: Query) {
    && (forall i, j :: 0 <= i < j < |matches| ==> matches[i] < matches[j])
    && (forall d :: d in matches <==> 0 <= d < |pages| && Found(q, pages[d]))
  }

  lemma FoundAreFound(matches: seq<int>, pages: seq<Page>, q: Query)
    requires IsFound(matches, Corpus(pages), q)
    ensures AreFound(matches, pages, q)
  {
    hide Found, Finds, Tokens;
    forall d | 0 <= d < |pages| ensures Finds(q, Corpus(pages)[d]) <==> Found(q, pages[d]) {
      FindsIsFound(q, pages[d]);
    }
  }

  lemma AnswersMatch(matches: seq<int>, pages: seq<Page>, q: Query)
    requires Answerable(q).Some? ==> IsAnswer(matches, Corpus(pages), Answerable(q).value)
    ensures Answerable(q).Some? ==> AreMatches(matches, pages, Answerable(q).value)
    ensures NotsWellPlaced(q) ==> AreMatches(matches, pages, q)
  {
    hide Answerable, IsAnswer, AreMatches, NotsWellPlaced, PhrasesHaveWords;
    AnswerableIsWhole(q);
    AnswerableHasWords(q);
    if Answerable(q).Some? {
      AnswersAreMatches(matches, pages, Answerable(q).value);
    }
  }

  // end to end: add the pages, compile the query, walk the stream. The result is, in
  // increasing order, the pages that the query finds: those that satisfy its answerable part
  // under the boolean reading, the query itself when its NOTs are well placed
  method BuildAndSearch(pages: seq<Page>, q: Query) returns (matches: seq<int>)
    requires Indexable(Corpus(pages))
    ensures AreFound(matches, pages, q)
    ensures Answerable(q).None? ==> matches == []
    ensures Answerable(q).Some? ==> AreMatches(matches, pages, Answerable(q).value)
    ensures NotsWellPlaced(q) ==> AreMatches(matches, pages, q)
  {
    hide Indexable, Tokens, Serves, IsDictionaryOf, AreMatches, IsAnswer, AreFound, IsFound, NotsWellPlaced, Answerable,
         PhrasesHaveWords, HasRanges, ServesTerm, Terms;
    var builder := BuildIndex(pages);
    BuiltIndexServes(builder.documents, builder.dictionary, pages);
    ServesAnyTerms(IndexOf(builder.documents, builder.dictionary), Corpus(pages), Terms(q));
    matches := Search(q, IndexOf(builder.documents, builder.dictionary), Corpus(pages));
    AnswersMatch(matches, pages, q);
    FoundAreFound(matches, pages, q);
  }

  // ---- where the engine and the boolean reading part

  // queries that hold of a page without words: those that only ask for something to be absent
  predicate HoldsOfNothing(q: Query)
    decreases q
  {
    match q
    case Word(_) => false
    case Phrase(words) => words == []
    case And(kids) => forall k | k in kids :: HoldsOfNothing(k)
    case Or(kids) => exists k | k in kids :: HoldsOfNothing(k)
    case Not(inner) => !HoldsOfNothing(inner)
  }

  // a page without words is never found; so on it the engine and the boolean reading part
  // exactly on the queries that hold of nothing
  lemma WordlessIsNotFound(q: Query, page: Page)
    requires Tokens(page) == []
    ensures Answerable(q).Some? ==> !Matches(Answerable(q).value, page)
    ensures Matches(q, page) <==> HoldsOfNothing(q)
  {
    hide Tokens, Matches, Answerable, HoldsOfNothing;
    FieldsAreEmpty(page);
    AnswerableNeedsWords(q, page);
    WordlessMatches(q, page);
  }

  ghost predicate IsWordless(page: Page) {
    Runs(page.url) == [] && FoldAll(page.titleWords) == FoldAll(page.words) == FoldAll(page.anchorText) == []
  }

  lemma FieldsAreEmpty(page: Page)
    requires Tokens(page) == []
    ensures IsWordless(page)
  {
    hide Runs, FoldAll;
    assert |Tag(Field(page, Url), Url)| == 0;
  }

  lemma {:induction false} WordlessMatches(q: Query, page: Page)
    requires IsWordless(page)
    ensures Matches(q, page) <==> HoldsOfNothing(q)
    decreases q
  {
    hide Runs, FoldAll;
    match q
    case Word(_) =>
    case Phrase(words) =>
      if words == [] {
        assert OccursAt(words, Field(page, Url), 0);
      }
    case And(kids) =>
      forall k | k in kids ensures Matches(k, page) <==> HoldsOfNothing(k) { WordlessMatches(k, page); }
    case Or(kids) =>
      forall k | k in kids ensures Matches(k, page) <==> HoldsOfNothing(k) { WordlessMatches(k, page); }
    case Not(inner) => WordlessMatches(inner, page);
  }

  lemma {:induction false} AnswerableNeedsWords(q: Query, page: Page)
    requires IsWordless(page)
    ensures Answerable(q).Some? ==> !Matches(Answerable(q).value, page)
    decreases q, 1
  {
    hide IsWordless, NotsWellPlaced, Contained;
    match q
    case Word(_) => WordlessMatches(q, page);
    case Phrase(_) => WordlessMatches(q, page);
    case And(kids) =>
      AndNeedsWords(kids, page);
      AndHasContained(AnswerableAnd(kids));
    case Or(kids) => OrNeedsWords(kids, page);
    case Not(_) =>
  }

  lemma {:induction false} AndNeedsWords(kids: seq<Query>, page: Page)
    requires IsWordless(page)
    ensures forall k :: k in AnswerableAnd(kids) && !k.Not? ==> !Matches(k, page)
    decreases kids
  {
    hide IsWordless, Matches;
    if kids != [] {
      AndNeedsWords(kids[..|kids| - 1], page);
      AnswerableNeedsWords(kids[|kids| - 1], page);
    }
  }

  lemma {:induction false} OrNeedsWords(kids: seq<Query>, page: Page)
    requires IsWordless(page)
    ensures forall k :: k in AnswerableOr(kids) ==> !Matches(k, page)
    decreases kids
  {
    hide IsWordless, Matches;
    if kids != [] {
      OrNeedsWords(kids[..|kids| - 1], page);
      AnswerableNeedsWords(kids[|kids| - 1], page);
    }
  }

  // the boolean reading does not survive a NOT that stands alone or under an OR: the
  // engine answers with the rest of the query
  lemma MisplacedNots(page: Page, a: string, b: string)
    requires !Matches(Word(a), page) && !Matches(Word(b), page)
    ensures Matches(Not(Word(b)), page) && Answerable(Not(Word(b))).None?
    ensures var q := Or([Word(a), Not(Word(b))]);
            && Matches(q, page) && Answerable(q).Some? && !Matches(Answerable(q).value, page)
  {
    var q := Or([Word(a), Not(Word(b))]);
    assert Not(Word(b)) in q.kids;
    assert q.kids[..1] == [Word(a)] && [Word(a)][..0] == [];
    assert AnswerableOr([Word(a)]) == [Word(a)];
    assert AnswerableOr(q.kids) == [Word(a)];
  }

  // an alternative that is a NOT counts for nothing: among alternatives that are otherwise well
  // placed the engine finds a page exactly when one that is no NOT holds there
  lemma NotsAreDropped(kids: seq<Query>, page: Page)
    requires forall k :: k in kids ==> k.Not? || NotsWellPlaced(k)
    ensures Answerable(Or(kids)).Some? && Matches(Answerable(Or(kids)).value, page) <==>
            exists k :: k in kids && !k.Not? && Matches(k, page)
    ensures forall k :: k in AnswerableOr(kids) <==> k in kids && !k.Not?
  {
    hide NotsWellPlaced, AnswerableOr, Matches;
    WellPlacedStay(kids);
    OrMatches(AnswerableOr(kids), page);
  }

  lemma {:induction false} WellPlacedStay(kids: seq<Query>)
    requires forall k :: k in kids ==> k.Not? || NotsWellPlaced(k)
    ensures forall k :: k in AnswerableOr(kids) <==> k in kids && !k.Not?
    decreases |kids|
  {
    hide NotsWellPlaced, Answerable;
    if kids != [] {
      var n := |kids| - 1;
      WellPlacedStay(kids[..n]);
      var last := kids[n];
      LastStays(last);
      var kept := if last.Not? then [] else [last];
      assert AnswerableOr(kids) == AnswerableOr(kids[..n]) + kept;
      assert kids == kids[..n] + [last];
    }
  }

  lemma LastStays(q: Query)
    requires q.Not? || NotsWellPlaced(q)
    ensures if q.Not? then Answerable(q).None? else Answerable(q).Some? && Answerable(q).value == q
  {
    hide NotsWellPlaced;
    AnswerableIsWhole(q);
  }

  lemma OrMatches(kids: seq<Query>, page: Page)
    ensures Matches(Or(kids), page) <==> exists k :: k in kids && Matches(k, page)
  {
  }

  // so inside an AND the page is lost on which only the NOT holds, though the query also asks
  // for something that is there
  lemma LostAlternative(page: Page, x: Query, y: Query, z: Query)
    requires NotsWellPlaced(x) && NotsWellPlaced(y)
    requires Matches(x, page) && !Matches(y, page) && !Matches(z, page)
    ensures var q := And([x, Or([y, Not(z)])]);
            && Matches(q, page) && Answerable(q).Some? && !Matches(Answerable(q).value, page)
  {
    hide NotsWellPlaced, Matches, Answerable, AnswerableOr;
    var alternatives := [y, Not(z)];
    NotsAreDropped(alternatives, page);
    AnswerableIsWhole(y);
    assert y in AnswerableOr(alternatives) by { assert y in alternatives; }
    SomeAnswerable(alternatives);
    AndOfTwo(x, Or(alternatives));
    NotMatches(z, page);
    OrMatches(alternatives, page);
    BothMatch(x, Or(alternatives), page);
    BothMatch(x, Answerable(Or(alternatives)).value, page);
  }

  lemma SomeAnswerable(kids: seq<Query>)
    ensures Answerable(Or(kids)).Some? <==> AnswerableOr(kids) != []
  {
  }

  lemma NotMatches(q: Query, page: Page)
    ensures Matches(Not(q), page) <==> !Matches(q, page)
  {
  }

  lemma BothMatch(a: Query, b: Query, page: Page)
    ensures Matches(And([a, b]), page) <==> Matches(a, page) && Matches(b, page)
  {
    var kids := [a, b];
    assert a in kids && b in kids;
  }

  lemma AndOfTwo(x: Query, o: Query)
    requires NotsWellPlaced(x) && !o.Not? && Answerable(o).Some?
    ensures var r := Answerable(And([x, o]));
            r.Some? && r.value == And([x, Answerable(o).value])
  {
    hide NotsWellPlaced;
    AnswerableIsWhole(x);
    var kids := [x, o];
    assert kids[..1] == [x] && [x][..0] == [];
    var kept := [x, Answerable(o).value];
    assert AnswerableAnd([x]) == [x];
    assert AnswerableAnd(kids) == kept;
    assert x in kept && !x.Not?;
    AndHasContained(kept);
  }
}
