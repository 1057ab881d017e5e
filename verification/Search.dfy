/** The query compiler and the walk over the compiled tree: a search returns exactly
    the documents that satisfy the answerable part of the query. */
module Searching {
  import opened Wrappers
  import opened Posting
  import opened Positions
  import opened IndexReading
  import opened WordReading
  import opened PhraseReading
  import opened IsrTrees
  import opened Queries

  // a tree stands for the documents on which the query holds
  ghost predicate Means(t: Isr, q: Query) {
    forall doc: Document :: Sat(t, doc) <==> Eval(q, doc)
  }

  // a tree stands for the documents that the query finds
  ghost predicate StandsFor(t: Isr, q: Query) {
    forall doc: Document :: Sat(t, doc) <==> Finds(q, doc)
  }

  lemma KeepsPositive(q: Query)
    ensures Answerable(q).Some? <==> HasPositive(q)
  {
    AnswerableFinds(q, []);
  }

  lemma MeansFinds(t: Isr, q: Query)
    requires Answerable(q).Some? && Means(t, Answerable(q).value)
    ensures StandsFor(t, q)
  {
    hide Answerable, Sat, Eval, Finds, HasPositive;
    forall doc: Document ensures Sat(t, doc) <==> Finds(q, doc) {
      AnswerableFinds(q, doc);
    }
  }

  ghost predicate MeanAll(ts: seq<Isr>, qs: seq<Query>) {
    |ts| == |qs| && forall i :: 0 <= i < |ts| ==> Means(ts[i], qs[i])
  }

  // a tree fresh from the compiler, parked on the first document it stands for; words,
  // phrases and alternatives of them on their first match
  ghost predicate Parked(t: Isr, docs: seq<Document>)
    reads Repr(t)
  {
    Good(t, docs) && Seen(t, docs, 0)
  }

  ghost predicate ParkedAll(ts: seq<Isr>, docs: seq<Document>)
    reads ReprAll(ts)
  {
    Apart(ts) && forall t :: t in ts ==> Parked(t, docs)
  }

  // there is a stream exactly when the query has something to go by, and it stands for exactly
  // the documents that the query finds
  method CompileToIsr(q: Query, ix: Index, ghost docs: seq<Document>) returns (r: Option<Isr>)
    requires ServesTerms(ix, docs, Terms(q))
    ensures r.Some? <==> HasPositive(q)
    ensures r.Some? ==> StandsFor(r.value, q)
    ensures r.Some? <==> Answerable(q).Some?
    ensures r.Some? ==> fresh(Repr(r.value)) && Parked(r.value, docs) && Means(r.value, Answerable(q).value)
    decreases q, 2
  {
    hide HasRanges, ServesTerm, Parked, Means, StandsFor, HasPositive, Finds, Repr;
    KeepsPositive(q);
    match q {
      case Word(term) =>
        var t := CompileWord(term, ix, docs);
        r := Some(t);
      case Phrase(words) =>
        if |words| == 0 {
          return None;
        }
        var t := CompilePhrase(words, ix, docs);
        r := Some(t);
      case And(kids) =>
        var contained, excluded := CompileAnd(kids, ix, docs);
        if |contained| == 0 {
          return None;
        }
        Exist(ReprAll(contained) + ReprAll(excluded));
        ContainedMeans(contained, AnswerableAnd(kids));
        var t := CombineAnd(contained, excluded, AnswerableAnd(kids), ix, docs);
        r := Some(t);
      case Or(kids) =>
        var children := CompileOr(kids, ix, docs);
        if |children| == 0 {
          return None;
        }
        Exist(ReprAll(children));
        var t := CombineOr(children, AnswerableOr(kids), ix, docs);
        r := Some(t);
      case Not(_) => return None;
    }
    MeansFinds(r.value, q);
  }

  method CompileWord(term: string, ix: Index, ghost docs: seq<Document>) returns (t: Isr)
    requires ServesTerm(ix, docs, term)
    ensures t.WordIsr? && t.word.term == term
    ensures fresh(Repr(t)) && Parked(t, docs) && Means(t, Word(term))
  {
    hide Hits, Start, DocumentAtOrAfter, Decodes, Sat, Seen, Low;
    var word := new ISRWord(ix, docs, term);
    t := WordIsr(word);
    WordSits(word, docs);
    ScanIsFirst(word.hits, 0, -1, 0) by { WordsFromStart(docs, word); }
    WordSeen(word, docs, 0, -1, 0);
    WordMeans(word);
  }

  lemma WordsFromStart(docs: seq<Document>, word: ISRWord)
    requires word.Valid() && word.hits == Hits(docs, word.term)
    ensures word.hits != [] ==> IsWordHit(word.hits[0]) && -1 <= word.hits[0].pos
  {
    hide Hits;
    HitsAre(docs, word.term);
    assert word.hits != [] ==> word.hits[0] in word.hits;
  }

  lemma WordMeans(word: ISRWord)
    ensures Means(WordIsr(word), Word(word.term))
  {
  }

  method CompilePhrase(words: seq<string>, ix: Index, ghost docs: seq<Document>) returns (t: Isr)
    requires words != [] && ServesTerms(ix, docs, set w | w in words)
    ensures fresh(Repr(t)) && Parked(t, docs) && Means(t, Phrase(words))
  {
    hide HasRanges, ServesTerm, Parked, Means, PhraseHit, Hits, ISRPhrase.Valid;
    if |words| == 1 {
      t := CompileWord(words[0], ix, docs);
      assert words == [words[0]];
      OneWordMeans(t, words[0]);
      return t;
    }
    var children := CompileWords(words, ix, docs);
    var phrase := new ISRPhrase(docs, children, words);
    t := PhraseIsr(phrase);
    PhraseIsParked(phrase, docs);
  }

  lemma OneWordMeans(t: Isr, word: string)
    requires Means(t, Word(word))
    ensures Means(t, Phrase([word]))
  {
    hide Sat, HasPhrase, HasTerm;
    forall doc: Document ensures Sat(t, doc) <==> Eval(Phrase([word]), doc) {
      OneWordPhrase(doc, word);
      assert Sat(t, doc) <==> Eval(Word(word), doc);
    }
  }

  lemma PhraseIsParked(phrase: ISRPhrase, docs: seq<Document>)
    requires phrase.Valid(docs) && phrase.terms != []
    requires if phrase.valid then NoPhraseIn(docs, phrase.terms, 0, phrase.currentStart)
             else NoPhraseFrom(docs, phrase.terms, 0)
    ensures Parked(PhraseIsr(phrase), docs) && Means(PhraseIsr(phrase), Phrase(phrase.terms))
  {
    hide ISRPhrase.Valid, NoPhraseIn, NoPhraseFrom, Seen, Low, HasPhrase, Start, DocumentAtOrAfter;
    PhraseSits(phrase, docs);
    PhraseSeen(phrase, docs, 0);
  }

  method CompileWords(words: seq<string>, ix: Index, ghost docs: seq<Document>) returns (children: seq<ISRWord>)
    requires ServesTerms(ix, docs, set w | w in words)
    ensures |children| == |words|
    ensures forall i, j :: 0 <= i < j < |children| ==> children[i] != children[j]
    ensures forall i :: 0 <= i < |children| ==>
              && fresh(children[i])
              && children[i].Valid()
              && children[i].hits == Hits(docs, words[i])
              && children[i].currentPostIdx == 0
  {
    hide HasRanges, ServesTerm, Hits, ISRWord.Valid, ISRWord.IsValid;
    children := [];
    for k := 0 to |words|
      invariant |children| == k
      invariant forall i, j :: 0 <= i < j < k ==> children[i] != children[j]
      invariant forall i :: 0 <= i < k ==>
                  && fresh(children[i])
                  && children[i].Valid()
                  && children[i].hits == Hits(docs, words[i])
                  && children[i].currentPostIdx == 0
    {
      var word := new ISRWord(ix, docs, words[k]);
      children := children + [word];
    }
  }

  // one more tree, none of whose objects existed before
  lemma OneMore(ts: seq<Isr>, t: Isr, q: Query, qs: seq<Query>, docs: seq<Document>)
    requires ParkedAll(ts, docs) && MeanAll(ts, qs)
    requires Parked(t, docs) && Means(t, q) && Repr(t) !! ReprAll(ts)
    ensures ParkedAll(ts + [t], docs) && MeanAll(ts + [t], qs + [q])
    ensures ReprAll(ts + [t]) == ReprAll(ts) + Repr(t)
  {
    hide Parked, Means, Repr;
  }

  method CompileOr(kids: seq<Query>, ix: Index, ghost docs: seq<Document>) returns (ts: seq<Isr>)
    requires forall k :: k in kids ==> ServesTerms(ix, docs, Terms(k))
    ensures fresh(ReprAll(ts)) && ParkedAll(ts, docs) && MeanAll(ts, AnswerableOr(kids))
    decreases kids, 0
  {
    hide HasRanges, ServesTerm, Parked, ParkedAll, Means, MeanAll, Repr, ReprAll, Answerable;
    ts := [];
    NoTrees(docs);
    assert kids[..0] == [];
    for i := 0 to |kids|
      invariant fresh(ReprAll(ts)) && ParkedAll(ts, docs) && MeanAll(ts, AnswerableOr(kids[..i]))
    {
      Exist(ReprAll(ts));
      assert kids[..i + 1][..i] == kids[..i];
      assert kids[i] in kids;
      var r := CompileToIsr(kids[i], ix, docs);
      if r.Some? {
        OneMore(ts, r.value, Answerable(kids[i]).value, AnswerableOr(kids[..i]), docs);
        ts := ts + [r.value];
      } else {
        assert AnswerableOr(kids[..i]) + [] == AnswerableOr(kids[..i]);
      }
    }
    assert kids[..|kids|] == kids;
  }

  lemma NoTrees(docs: seq<Document>)
    ensures ReprAll([]) == {} && ParkedAll([], docs) && MeanAll([], [])
    ensures AnswerableOr([]) == [] && AnswerableAnd([]) == [] && Contained([]) == [] && Excluded([]) == []
  {
  }

  // the loop over the children of an AND
  method CompileAnd(kids: seq<Query>, ix: Index, ghost docs: seq<Document>)
    returns (contained: seq<Isr>, excluded: seq<Isr>)
    requires forall k :: k in kids ==> ServesTerms(ix, docs, Terms(k))
    ensures fresh(ReprAll(contained)) && fresh(ReprAll(excluded)) && ReprAll(contained) !! ReprAll(excluded)
    ensures ParkedAll(contained, docs) && MeanAll(contained, Contained(AnswerableAnd(kids)))
    ensures ParkedAll(excluded, docs) && MeanAll(excluded, Excluded(AnswerableAnd(kids)))
    decreases kids, 0
  {
    hide HasRanges, ServesTerm, Parked, ParkedAll, Means, MeanAll, Repr, ReprAll, Answerable, AnswerableAnd,
         Contained, Excluded;
    contained, excluded := [], [];
    NoTrees(docs);
    assert kids[..0] == [];
    for i := 0 to |kids|
      invariant fresh(ReprAll(contained)) && fresh(ReprAll(excluded)) && ReprAll(contained) !! ReprAll(excluded)
      invariant ParkedAll(contained, docs) && MeanAll(contained, Contained(AnswerableAnd(kids[..i])))
      invariant ParkedAll(excluded, docs) && MeanAll(excluded, Excluded(AnswerableAnd(kids[..i])))
    {
      Exist(ReprAll(contained));
      Exist(ReprAll(excluded));
      KidOfAnd(kids, i);
      assert kids[i] in kids;
      match kids[i]
      case Not(inner) =>
        var r := CompileToIsr(inner, ix, docs);
        if r.Some? {
          OneMore(excluded, r.value, Answerable(inner).value, Excluded(AnswerableAnd(kids[..i])), docs);
          excluded := excluded + [r.value];
        }
      case kid =>
        var r := CompileToIsr(kid, ix, docs);
        if r.Some? {
          OneMore(contained, r.value, Answerable(kid).value, Contained(AnswerableAnd(kids[..i])), docs);
          contained := contained + [r.value];
        }
    }
    assert kids[..|kids|] == kids;
  }

  lemma KidsAppend(kids: seq<Query>, kid: Query)
    ensures Contained(kids + [kid]) == if kid.Not? then Contained(kids) else Contained(kids) + [kid]
    ensures Excluded(kids + [kid]) == if kid.Not? then Excluded(kids) + [kid.inner] else Excluded(kids)
  {
    assert (kids + [kid])[..|kids|] == kids;
  }

  lemma KidOfAnd(kids: seq<Query>, i: nat)
    requires i < |kids|
    ensures var before, after := AnswerableAnd(kids[..i]), AnswerableAnd(kids[..i + 1]);
            match kids[i]
            case Not(inner) =>
              && Contained(after) == Contained(before)
              && Excluded(after) == if Answerable(inner).Some? then Excluded(before) + [Answerable(inner).value]
                                    else Excluded(before)
            case kid =>
              && Excluded(after) == Excluded(before)
              && Contained(after) == if Answerable(kid).Some? then Contained(before) + [Answerable(kid).value]
                                     else Contained(before)
  {
    hide Answerable, Contained, Excluded, NotsWellPlaced;
    var before := AnswerableAnd(kids[..i]);
    assert kids[..i + 1][..i] == kids[..i];
    if !kids[i].Not? {
      AnswerableIsWhole(kids[i]);
    }
    var kept := AnswerableKid(kids[i]);
    if kept == [] {
      assert before + kept == before;
    } else {
      assert kept == [kept[0]];
      KidsAppend(before, kept[0]);
    }
  }

  lemma ContainedMeans(contained: seq<Isr>, qs: seq<Query>)
    requires MeanAll(contained, Contained(qs))
    ensures contained == [] <==> Contained(qs) == []
  {
    hide Means, Contained;
  }

  lemma OrMeans(t: Isr, qs: seq<Query>)
    requires t.OrIsr? && MeanAll(t.children, qs)
    ensures Means(t, Or(qs))
  {
    hide Repr;
    forall doc: Document ensures Sat(t, doc) <==> Eval(Or(qs), doc) {
      MeanEach(t.children, qs, doc);
      if Sat(t, doc) {
        var i :| 0 <= i < |qs| && Sat(t.children[i], doc);
        assert qs[i] in qs;
      }
      if Eval(Or(qs), doc) {
        var i :| 0 <= i < |qs| && Eval(qs[i], doc);
        assert t.children[i] in t.children;
      }
    }
  }

  lemma MeanEach(ts: seq<Isr>, qs: seq<Query>, doc: Document)
    requires MeanAll(ts, qs)
    ensures forall i :: 0 <= i < |ts| ==> (Sat(ts[i], doc) <==> Eval(qs[i], doc))
  {
    hide Sat, Eval;
    forall i | 0 <= i < |ts| ensures Sat(ts[i], doc) <==> Eval(qs[i], doc) {
      assert Means(ts[i], qs[i]);
    }
  }

  lemma AllMeans(ts: seq<Isr>, qs: seq<Query>, doc: Document)
    requires MeanAll(ts, qs)
    ensures (forall t :: t in ts ==> Sat(t, doc)) <==> (forall q :: q in qs ==> Eval(q, doc))
    ensures (forall t :: t in ts ==> !Sat(t, doc)) <==> (forall q :: q in qs ==> !Eval(q, doc))
  {
    hide Sat, Eval, MeanAll;
    MeanEach(ts, qs, doc);
    assert |ts| == |qs| by { MeanLength(ts, qs); }
    forall i | 0 <= i < |ts| ensures ts[i] in ts && qs[i] in qs {}
  }

  lemma MeanLength(ts: seq<Isr>, qs: seq<Query>)
    requires MeanAll(ts, qs)
    ensures |ts| == |qs|
  {
    hide Means;
  }

  lemma OneMeans(t: Isr, qs: seq<Query>)
    requires MeanAll([t], Contained(qs)) && Excluded(qs) == []
    ensures Means(t, And(qs))
  {
    hide Sat, MeanAll;
    forall doc: Document ensures Sat(t, doc) <==> Eval(And(qs), doc) {
      AllMeans([t], Contained(qs), doc);
      EvalAnd(qs, doc);
      assert t in [t];
    }
  }

  lemma AndMeans(t: Isr, qs: seq<Query>)
    requires t.AndIsr? && t.children != [] && MeanAll(t.children, Contained(qs)) && Excluded(qs) == []
    ensures Means(t, And(qs))
  {
    hide Eval, MeanAll;
    forall doc: Document ensures Sat(t, doc) <==> Eval(And(qs), doc) {
      AllMeans(t.children, Contained(qs), doc);
      EvalAnd(qs, doc);
    }
  }

  lemma ContainerMeans(t: Isr, qs: seq<Query>)
    requires t.ContainerIsr? && t.contained != []
    requires MeanAll(t.contained, Contained(qs)) && MeanAll(t.excluded, Excluded(qs))
    ensures Means(t, And(qs))
  {
    hide Eval, MeanAll;
    forall doc: Document ensures Sat(t, doc) <==> Eval(And(qs), doc) {
      AllMeans(t.contained, Contained(qs), doc);
      AllMeans(t.excluded, Excluded(qs), doc);
      EvalAnd(qs, doc);
    }
  }

  lemma ParkedIsReady(ts: seq<Isr>, docs: seq<Document>)
    requires ParkedAll(ts, docs)
    ensures Apart(ts) && GoodAll(ts, docs) && Start(docs, 0) == 0
    ensures SeenAll(ts, docs, 0) && FreshAll(ts, docs) && NotBefore(ts, docs, 0)
  {
    hide Good, Seen, Fresh, FreshAll, NotBefore, Repr;
    NotBeforeFirst(ts, docs);
    SeenAllIsFresh(ts, docs, 0);
  }

  // the last step for an AND: the sole child itself, an ISRAnd, or an ISRContainer
  method CombineAnd(contained: seq<Isr>, excluded: seq<Isr>, ghost qs: seq<Query>, ix: Index, ghost docs: seq<Document>)
    returns (t: Isr)
    requires HasRanges(ix, docs) && contained != [] && ReprAll(contained) !! ReprAll(excluded)
    requires ParkedAll(contained, docs) && MeanAll(contained, Contained(qs))
    requires ParkedAll(excluded, docs) && MeanAll(excluded, Excluded(qs))
    modifies ReprAll(contained), ReprAll(excluded)
    ensures forall o :: o in Repr(t) ==> o in ReprAll(contained) || o in ReprAll(excluded) || fresh(o)
    ensures Parked(t, docs) && Means(t, And(qs))
  {
    hide HasRanges, ServesTerm, Parked, ParkedAll, Means, MeanAll, Apart, Good, Seen, ReprAll, GoodAll, SeenAll,
         FreshAll, NotBefore, Guarded, Start;
    Exist(ReprAll(contained) + ReprAll(excluded));
    ParkedIsReady(contained, docs);
    ParkedIsReady(excluded, docs);
    GuardedFrom(contained, excluded, docs, 0);
    MeanLength(excluded, Excluded(qs));
    if |excluded| == 0 && |contained| == 1 {
      t := contained[0];
      SoleIsParked(contained, docs);
      OneMeans(t, qs);
      return t;
    }
    var ends := new ISREndDoc(ix, docs);
    var at := new DocMatch(ends);
    if |excluded| == 0 {
      t := AndIsr(contained, at);
      AndMeans(t, qs);
      var _ := FindNextAnd(t, ix, docs, 0);
    } else {
      t := ContainerIsr(contained, excluded, at);
      ContainerMeans(t, qs);
      var _ := FindNextContainer(t, ix, docs, 0);
    }
    FoundIsParked(t, docs);
  }

  lemma SoleIsParked(ts: seq<Isr>, docs: seq<Document>)
    requires ParkedAll(ts, docs) && |ts| == 1
    ensures Parked(ts[0], docs) && Repr(ts[0]) <= ReprAll(ts)
    ensures ts == [ts[0]]
  {
    hide Parked, Repr;
    assert ts[0] in ts;
  }

  lemma FoundIsParked(t: Isr, docs: seq<Document>)
    requires Good(t, docs) && Seen(t, docs, Start(docs, 0))
    ensures Parked(t, docs)
  {
    hide Good, Seen;
  }

  // the last step for an OR: the sole child itself, or an ISROr
  method CombineOr(ts: seq<Isr>, ghost qs: seq<Query>, ghost ix: Index, ghost docs: seq<Document>) returns (t: Isr)
    requires HasRanges(ix, docs) && ts != []
    requires ParkedAll(ts, docs) && MeanAll(ts, qs)
    ensures forall o :: o in Repr(t) ==> o in ReprAll(ts) || fresh(o)
    ensures Parked(t, docs) && Means(t, Or(qs))
  {
    hide HasRanges, ServesTerm, Parked, ParkedAll, Means, MeanAll, Apart, Good, Seen, ReprAll, GoodAll, SeenAll,
         Start, PicksMin, Landed, Low, IsPlain;
    Exist(ReprAll(ts));
    ParkedIsReady(ts, docs);
    if |ts| == 1 {
      t := ts[0];
      SoleIsParked(ts, docs);
      MeanLength(ts, qs);
      OneOrMeans(t, ts, qs);
      return t;
    }
    var min := new MinMatch();
    t := OrIsr(ts, min);
    OrMeans(t, qs);
    RangesFit(ix, docs);
    PickMin(ts, min, docs);
    ParkedHaveLanded(ts, docs);
    if IsPlain(t) {
      ParkedIsLow(t, docs);
    }
    OrIsGood(t, docs, 0);
    FoundIsParked(t, docs);
  }

  lemma ParkedIsLow(t: Isr, docs: seq<Document>)
    requires t.OrIsr? && IsPlain(t) && ParkedAll(t.children, docs)
    requires t.min.valid <==> exists c :: c in t.children && IsValid(c)
    requires t.min.valid ==> PicksMin(t.children, t.min)
    ensures t.min.valid ==> LowAll(t.children, docs, t.min.currentStart + 1)
  {
    hide Good, SeenDocs, SeenStarts, Low, Repr, ReprAll, Apart;
    forall c | c in t.children ensures Low(c, docs, 0) {
      SeenIsLow(c, docs, 0);
    }
    if t.min.valid {
      SpanFits(t.children[t.min.currentChild], docs);
      LowAllLater(t.children, docs, 0, t.min.currentStart + 1);
    }
  }

  lemma OneOrMeans(t: Isr, ts: seq<Isr>, qs: seq<Query>)
    requires ts == [t] && MeanAll(ts, qs)
    ensures Means(t, Or(qs))
  {
    hide Sat, MeanAll;
    forall doc: Document ensures Sat(t, doc) <==> Eval(Or(qs), doc) {
      MeanLength(ts, qs);
      MeanEach(ts, qs, doc);
      assert qs == [qs[0]];
    }
  }

  lemma ParkedHaveLanded(ts: seq<Isr>, docs: seq<Document>)
    requires GoodAll(ts, docs)
    ensures forall c :: c in ts && IsValid(c) ==>
              0 <= DocId(c, docs) < |docs| && 0 <= End(docs, DocId(c, docs)) + 1
  {
    hide Good, DocId, Start, Repr, ReprAll;
    forall c | c in ts && IsValid(c) ensures 0 <= DocId(c, docs) < |docs| && 0 <= End(docs, DocId(c, docs)) + 1 {
      SpanFits(c, docs);
    }
  }

  // ---- a conjunction that does not seek to the location

  // AND(a, b) parked on a page `a b`: Seek(1) succeeds, on the match that starts at 0
  method SeekStaysBefore(ix: Index, ghost docs: seq<Document>) returns (ok: bool, start: int)
    requires docs == [[Token("a", Body), Token("b", Body)]] && ServesTerms(ix, docs, {"a", "b"})
    ensures ok && start == 0
  {
    hide HasRanges, ServesTerm, Good, Seen, Low, Sat, Means, Parked, DocId, Start, End, DocumentAtOrAfter, Apart,
         SpanIs;
    var t := PairOnPage(ix, docs);
    ok := Seek(t, ix, docs, 1);
    start := GetStartLocation(t);
  }

  method PairOnPage(ix: Index, ghost docs: seq<Document>) returns (t: Isr)
    requires docs == [[Token("a", Body), Token("b", Body)]] && ServesTerms(ix, docs, {"a", "b"})
    ensures t.AndIsr? && fresh(Repr(t)) && Good(t, docs) && IsValid(t)
    ensures GetStartLocation(t) == 0 && DocId(t, docs) == 0 && DocumentAtOrAfter(docs, 0, 1) == 0
  {
    hide HasRanges, ServesTerm, Good, Seen, Sat, DocId, Start, End, DocumentAtOrAfter, Apart, SeenAll, AllOn,
         Together, ReprAll, GoodAll, ISREndDoc.Valid;
    t := OpenPair(ix, docs);
    ghost var a := t.children[0];
    PartOfAll(t.children, 0);
    AllOnTogether(t.children, docs, 0, 0);
    Exist(Repr(t));
    var _ := FindNextAnd(t, ix, docs, 0);
    SpanFromFirst(t, a, docs);
  }

  method OpenPair(ix: Index, ghost docs: seq<Document>) returns (t: Isr)
    requires docs == [[Token("a", Body), Token("b", Body)]] && ServesTerms(ix, docs, {"a", "b"})
    ensures t.AndIsr? && |t.children| == 2 && fresh(Repr(t)) && Ready(t, docs)
    ensures SeenAll(t.children, docs, Start(docs, 0)) && AllOn(t.children, docs, 0)
    ensures GetStartLocation(t.children[0]) == 0
  {
    hide HasRanges, ServesTerm, Good, Seen, Low, Sat, Means, Parked, DocId, Start, End, Ready, SeenAll, AllOn,
         ISREndDoc.Valid;
    var a := CompileWord("a", ix, docs);
    var b := CompileWord("b", ix, docs);
    WordOnOnlyPage(a, docs, 0);
    WordOnOnlyPage(b, docs, 1);
    var ends := new ISREndDoc(ix, docs);
    var at := new DocMatch(ends);
    t := AndIsr([a, b], at);
    PairIsReady(t, a, b, docs);
  }

  lemma WordOnOnlyPage(t: Isr, docs: seq<Document>, k: nat)
    requires |docs| == 1 && k < |docs[0]| && docs[0][k].dec != Eod
    requires t.WordIsr? && t.word.term == docs[0][k].term && Parked(t, docs)
    ensures IsValid(t) && DocId(t, docs) == 0 && 0 <= GetStartLocation(t) <= k
    ensures Good(t, docs) && Seen(t, docs, Start(docs, 0))
  {
    hide Good, SeenDocs, SeenStarts, DocId;
    assert IsHitIn(docs, 0, t.word.term, Hit(k, docs[0][k].dec));
    assert StartsAt(t, docs, k);
    SeenIsLow(t, docs, 0);
    SpanFits(t, docs);
  }

  lemma PairIsReady(t: Isr, a: Isr, b: Isr, docs: seq<Document>)
    requires a.WordIsr? && b.WordIsr? && a.word != b.word && t.AndIsr? && t.children == [a, b]
    requires Good(a, docs) && Good(b, docs) && AtDocs(t.at, docs)
    requires Seen(a, docs, Start(docs, 0)) && Seen(b, docs, Start(docs, 0))
    ensures Ready(t, docs) && SeenAll(t.children, docs, Start(docs, 0))
    ensures IsValid(a) && IsValid(b) && DocId(a, docs) == DocId(b, docs) == 0 ==> AllOn(t.children, docs, 0)
  {
    hide Good, Seen, Fresh, FreshAll, NotBefore, Start, AtDocs, DocId;
    NotBeforeFirst(t.children, docs);
    SeenAllIsFresh(t.children, docs, 0);
    assert Repr(a) == {a.word} && Repr(b) == {b.word};
    assert ReprAll(t.children) <= {a.word, b.word};
  }

  lemma SpanFromFirst(t: Isr, a: Isr, docs: seq<Document>)
    requires Good(t, docs) && t.AndIsr? && IsValid(t) && |docs| == 1 && |docs[0]| >= 1
    requires a in t.children && GetStartLocation(a) == 0
    ensures GetStartLocation(t) == 0 && DocId(t, docs) == 0 && DocumentAtOrAfter(docs, 0, 1) == 0
  {
    hide Good, DocId, DocumentAtOrAfter, Repr, ReprAll, AllOn;
    SpanFits(t, docs);
    OnOneDocument(t, docs, 0);
    assert Start(docs, 0) == 0 && End(docs, 0) >= 1;
    DocIdIs(docs, 1, 0);
  }

  // ---- walk_isr_docs

  // the documents that satisfy the query, in increasing order
  ghost predicate IsAnswer(matches: seq<int>, docs: seq<Document>, q: Query) {
    && StrictlyIncreasing(matches)
    && forall d :: d in matches <==> 0 <= d < |docs| && Eval(q, docs[d])
  }

  ghost predicate AnswersBelow(matches: seq<int>, t: Isr, docs: seq<Document>, m: int) {
    && StrictlyIncreasing(matches)
    && forall d :: d in matches <==> 0 <= d < |docs| && d < m && Sat(t, docs[d])
  }

  method WalkIsrDocs(root: Option<Isr>, ix: Index, ghost docs: seq<Document>) returns (matches: seq<int>)
    requires HasRanges(ix, docs)
    requires root.Some? ==> Parked(root.value, docs)
    modifies if root.Some? then Repr(root.value) else {}
    ensures root.None? ==> matches == []
    ensures root.Some? ==> AnswersBelow(matches, root.value, docs, |docs|)
  {
    hide HasRanges, ServesTerm, Good, Seen, Sat, DocId, Repr, IsValid, Start;
    matches := [];
    if root.None? {
      return;
    }
    var t := root.value;
    ghost var m := 0;
    NoAnswersYet(t, docs);
    while IsValid(t)
      invariant 0 <= m <= |docs|
      invariant Good(t, docs) && Seen(t, docs, Start(docs, m)) && AnswersBelow(matches, t, docs, m)
      invariant IsValid(t) ==> m <= DocId(t, docs)
      decreases |docs| - m, IsValid(t)
    {
      Exist(Repr(t));
      SpanFits(t, docs);
      var d := GetCurrentDocId(t, ix, docs);
      NextAnswer(matches, t, docs, m, d);
      if |matches| == 0 || matches[|matches| - 1] != d {
        matches := matches + [d];
      }
      m := d + 1;
      var more := SkipToDoc(t, ix, docs, d + 1);
      NoMoreAnswers(matches, t, docs, m);
      if !more {
        return;
      }
    }
    NoMoreAnswers(matches, t, docs, m);
  }

  lemma NoAnswersYet(t: Isr, docs: seq<Document>)
    requires Parked(t, docs)
    ensures Good(t, docs) && Seen(t, docs, Start(docs, 0)) && AnswersBelow([], t, docs, 0)
    ensures IsValid(t) ==> 0 <= DocId(t, docs)
  {
    hide Good, Seen, Sat, Low, Repr, DocId;
    if IsValid(t) {
      SpanFits(t, docs);
    }
  }

  lemma NextAnswer(matches: seq<int>, t: Isr, docs: seq<Document>, m: int, d: int)
    requires AnswersBelow(matches, t, docs, m) && 0 <= m <= d < |docs|
    requires Good(t, docs) && IsValid(t) && d == DocId(t, docs) && Seen(t, docs, Start(docs, m))
    ensures matches != [] ==> matches[|matches| - 1] != d
    ensures AnswersBelow(matches + [d], t, docs, d + 1)
  {
    hide Good, Sat, Repr, DocId, Start;
    GoodSits(t, docs);
    forall i | 0 <= i < |matches| ensures matches[i] < m {
      assert matches[i] in matches;
    }
    forall x | m <= x < d ensures !Sat(t, docs[x]) {
      StartOrder(docs, m, x);
    }
  }

  lemma NoMoreAnswers(matches: seq<int>, t: Isr, docs: seq<Document>, m: int)
    requires AnswersBelow(matches, t, docs, m) && 0 <= m <= |docs|
    requires m < |docs| && !IsValid(t) ==> Seen(t, docs, Start(docs, m))
    ensures m == |docs| || !IsValid(t) ==> AnswersBelow(matches, t, docs, |docs|)
  {
    hide Sat, Repr, DocId, Start;
    if !IsValid(t) {
      forall x | m <= x < |docs| ensures !Sat(t, docs[x]) {
        StartOrder(docs, m, x);
      }
    }
  }

  // the documents that the query finds, in increasing order
  ghost predicate IsFound(matches: seq<int>, docs: seq<Document>, q: Query) {
    && StrictlyIncreasing(matches)
    && forall d :: d in matches <==> 0 <= d < |docs| && Finds(q, docs[d])
  }

  lemma AnswerIsFound(matches: seq<int>, docs: seq<Document>, q: Query)
    requires Answerable(q).None? ==> matches == []
    requires Answerable(q).Some? ==> IsAnswer(matches, docs, Answerable(q).value)
    ensures IsFound(matches, docs, q)
  {
    hide Answerable, Eval, Finds, HasPositive;
    forall d | 0 <= d < |docs|
      ensures Finds(q, docs[d]) <==> Answerable(q).Some? && Eval(Answerable(q).value, docs[d])
    {
      AnswerableFinds(q, docs[d]);
    }
  }

  // compile and walk: exactly the documents that the query finds, in increasing order, which
  // are those that satisfy its answerable part
  method Search(q: Query, ix: Index, ghost docs: seq<Document>) returns (matches: seq<int>)
    requires ServesTerms(ix, docs, Terms(q))
    ensures IsFound(matches, docs, q)
    ensures Answerable(q).None? ==> matches == []
    ensures Answerable(q).Some? ==> IsAnswer(matches, docs, Answerable(q).value)
    ensures NotsWellPlaced(q) ==> IsAnswer(matches, docs, q)
  {
    hide IsFound, StandsFor, HasPositive, Finds, HasRanges, ServesTerm, Parked, Sat, Eval, Repr, NotsWellPlaced,
         Answerable;
    AnswerableIsWhole(q);
    var root := CompileToIsr(q, ix, docs);
    if root.Some? {
      Exist(Repr(root.value));
    }
    matches := WalkIsrDocs(root, ix, docs);
    AnswerIsFound(matches, docs, q);
  }
}
