/** The constraint solver: AND and OR over plain terms, straight on word cursors; a
    second way to the answers that the ISR tree gives. */
module ConstraintSolving {
  import opened Wrappers
  import opened Positions
  import opened IndexReading
  import opened IsrTrees
  import opened Queries
  import opened Searching

  function Words(terms: seq<string>): (r: seq<Query>)
    ensures |r| == |terms|
    ensures forall i :: 0 <= i < |terms| ==> r[i] == Word(terms[i])
  {
    seq(|terms|, i requires 0 <= i < |terms| => Word(terms[i]))
  }

  ghost predicate HasAll(doc: Document, terms: seq<string>) {
    forall term :: term in terms ==> HasTerm(doc, term)
  }

  // one cursor per term
  ghost predicate AreTermsOf(isrs: seq<Isr>, terms: seq<string>) {
    |isrs| == |terms| && forall i :: 0 <= i < |isrs| ==> isrs[i].WordIsr? && isrs[i].word.term == terms[i]
  }

  lemma SatAllIsHasAll(isrs: seq<Isr>, terms: seq<string>, doc: Document)
    requires AreTermsOf(isrs, terms) && terms != []
    ensures SatAll(isrs, doc) <==> HasAll(doc, terms)
  {
    hide HasTerm;
    forall i | 0 <= i < |terms| ensures Sat(isrs[i], doc) <==> HasTerm(doc, terms[i]) {}
    forall i | 0 <= i < |terms| ensures isrs[i] in isrs && terms[i] in terms {}
  }

  // the answers so far
  ghost predicate CommonBelow(results: seq<int>, isrs: seq<Isr>, docs: seq<Document>, m: int) {
    && StrictlyIncreasing(results)
    && forall d :: d in results <==> 0 <= d < |docs| && d < m && SatAll(isrs, docs[d])
  }

  lemma NothingBefore(results: seq<int>, isrs: seq<Isr>, docs: seq<Document>, m: int, hi: int)
    requires CommonBelow(results, isrs, docs, m) && m <= hi && NoneIn(isrs, docs, m, hi)
    ensures CommonBelow(results, isrs, docs, hi)
  {
    hide SatAll;
  }

  lemma OneMoreCommon(results: seq<int>, isrs: seq<Isr>, docs: seq<Document>, d: int)
    requires CommonBelow(results, isrs, docs, d) && 0 <= d < |docs| && SatAll(isrs, docs[d])
    ensures CommonBelow(results + [d], isrs, docs, d + 1)
  {
    hide SatAll;
    forall i | 0 <= i < |results| ensures results[i] < d {
      assert results[i] in results;
    }
  }

  // the first inner loop: every cursor valid, and the greatest document among them
  method MaxDoc(isrs: seq<Isr>, ix: Index, ghost docs: seq<Document>) returns (allValid: bool, maxDoc: int)
    requires HasRanges(ix, docs) && GoodAll(isrs, docs) && isrs != []
    ensures allValid <==> forall t :: t in isrs ==> IsValid(t)
    ensures allValid ==> 0 <= maxDoc < |docs|
    ensures allValid ==> forall t :: t in isrs ==> 0 <= DocId(t, docs) <= maxDoc
    ensures allValid ==> exists t :: t in isrs && DocId(t, docs) == maxDoc
  {
    hide Good, HasRanges, ServesTerm, Repr, ReprAll, DocId, IsValid, Start, End;
    Exist(ReprAll(isrs));
    ReprsArePart(isrs);
    maxDoc := -1;
    for i := 0 to |isrs|
      invariant i == 0 ==> maxDoc == -1
      invariant -1 <= maxDoc < |docs|
      invariant forall j :: 0 <= j < i ==> IsValid(isrs[j]) && 0 <= DocId(isrs[j], docs) <= maxDoc
      invariant i > 0 ==> exists j :: 0 <= j < i && DocId(isrs[j], docs) == maxDoc
    {
      assert isrs[i] in isrs;
      if !IsValid(isrs[i]) {
        return false, maxDoc;
      }
      SpanFits(isrs[i], docs);
      var docId := GetCurrentDocId(isrs[i], ix, docs);
      if docId > maxDoc {
        maxDoc := docId;
      }
    }
    return true, maxDoc;
  }

  lemma AndOfWords(terms: seq<string>, doc: Document)
    ensures Eval(And(Words(terms)), doc) <==> HasAll(doc, terms)
  {
    hide HasTerm;
    forall i | 0 <= i < |terms|
      ensures Words(terms)[i] in Words(terms) && terms[i] in terms
      ensures Eval(Words(terms)[i], doc) <==> HasTerm(doc, terms[i])
    {
    }
  }

  lemma OrOfWords(terms: seq<string>, doc: Document)
    ensures Eval(Or(Words(terms)), doc) <==> exists term :: term in terms && HasTerm(doc, term)
  {
    hide HasTerm;
    forall i | 0 <= i < |terms|
      ensures Words(terms)[i] in Words(terms) && terms[i] in terms
      ensures Eval(Words(terms)[i], doc) <==> HasTerm(doc, terms[i])
    {
    }
  }

  lemma CommonIsAnswer(results: seq<int>, isrs: seq<Isr>, terms: seq<string>, docs: seq<Document>)
    requires AreTermsOf(isrs, terms) && terms != [] && CommonBelow(results, isrs, docs, |docs|)
    ensures IsAnswer(results, docs, And(Words(terms)))
  {
    hide SatAll, HasAll, Eval;
    forall d | 0 <= d < |docs| ensures SatAll(isrs, docs[d]) <==> Eval(And(Words(terms)), docs[d]) {
      SatAllIsHasAll(isrs, terms, docs[d]);
      AndOfWords(terms, docs[d]);
    }
  }

  // a cursor that starts out invalid has no document at all
  lemma NoDocument(t: Isr, term: string, terms: seq<string>, docs: seq<Document>)
    requires Parked(t, docs) && !IsValid(t) && t.WordIsr? && t.word.term == term && term in terms
    ensures IsAnswer([], docs, And(Words(terms)))
  {
    hide Good, Start, DocId, HasTerm, Repr;
    forall d | 0 <= d < |docs| ensures !Eval(And(Words(terms)), docs[d]) {
      assert !Sat(t, docs[d]);
      AndOfWords(terms, docs[d]);
    }
  }

  // one round: all cursors valid, the greatest of their documents is the next candidate
  lemma Round(isrs: seq<Isr>, docs: seq<Document>, m: int, maxDoc: int)
    requires GoodAll(isrs, docs) && isrs != [] && 0 <= m <= |docs| && SeenAll(isrs, docs, Start(docs, m))
    requires NotBefore(isrs, docs, m) && forall t :: t in isrs ==> IsValid(t)
    requires forall t :: t in isrs ==> DocId(t, docs) <= maxDoc
    requires exists t :: t in isrs && DocId(t, docs) == maxDoc
    ensures m <= maxDoc < |docs| && NoneIn(isrs, docs, m, maxDoc)
    ensures (forall t :: t in isrs ==> DocId(t, docs) == maxDoc) ==>
              SatAll(isrs, docs[maxDoc]) && SeenAll(isrs, docs, Start(docs, maxDoc + 1))
    ensures !(forall t :: t in isrs ==> DocId(t, docs) == maxDoc) ==> m < maxDoc
    ensures SeenAll(isrs, docs, Start(docs, maxDoc))
  {
    hide Good, Sat, Start, Repr, ReprAll, Seen, DocId, IsValid;
    AlignedSits(isrs, docs, m, maxDoc);
    SeenAllLater(isrs, docs, maxDoc);
    if forall t :: t in isrs ==> DocId(t, docs) == maxDoc {
      forall t | t in isrs ensures Sat(t, docs[maxDoc]) {
        OnDocument(t, docs);
      }
    }
  }

  lemma OnDocument(t: Isr, docs: seq<Document>)
    requires Good(t, docs) && IsValid(t)
    ensures 0 <= DocId(t, docs) < |docs| && Sat(t, docs[DocId(t, docs)])
  {
    hide Good, Sat, DocId, Start, Repr, IsValid;
    GoodSits(t, docs);
  }

  method AllAt(isrs: seq<Isr>, ix: Index, ghost docs: seq<Document>, doc: int) returns (allMatch: bool)
    requires HasRanges(ix, docs) && GoodAll(isrs, docs) && forall t :: t in isrs ==> IsValid(t)
    ensures allMatch <==> forall t :: t in isrs ==> DocId(t, docs) == doc
  {
    hide Good, HasRanges, ServesTerm, Repr, ReprAll, DocId, IsValid;
    Exist(ReprAll(isrs));
    ReprsArePart(isrs);
    for i := 0 to |isrs|
      invariant forall j :: 0 <= j < i ==> DocId(isrs[j], docs) == doc
    {
      assert isrs[i] in isrs;
      var d := GetCurrentDocId(isrs[i], ix, docs);
      if d != doc {
        return false;
      }
    }
    return true;
  }

  // the cursors of the terms, or None when one of them has nothing
  method OpenAll(terms: seq<string>, ix: Index, ghost docs: seq<Document>) returns (r: Option<seq<Isr>>)
    requires Serves(ix, docs)
    ensures r.None? ==> IsAnswer([], docs, And(Words(terms)))
    ensures r.Some? ==> fresh(ReprAll(r.value)) && ParkedAll(r.value, docs) && AreTermsOf(r.value, terms)
    ensures r.Some? ==> forall t :: t in r.value ==> IsValid(t)
  {
    hide HasRanges, ServesTerm, Parked, ParkedAll, Repr, ReprAll, IsValid, IsAnswer, MeanAll;
    var isrs := [];
    NoTrees(docs);
    for i := 0 to |terms|
      invariant fresh(ReprAll(isrs)) && ParkedAll(isrs, docs)
      invariant AreTermsOf(isrs, terms[..i])
      invariant forall t :: t in isrs ==> IsValid(t)
    {
      Exist(ReprAll(isrs));
      ReprsArePart(isrs);
      var isr := CompileWord(terms[i], ix, docs);
      if !IsValid(isr) {
        NoDocument(isr, terms[i], terms, docs);
        return None;
      }
      OneMoreParked(isrs, isr, docs);
      isrs := isrs + [isr];
    }
    return Some(isrs);
  }

  lemma OneMoreParked(ts: seq<Isr>, t: Isr, docs: seq<Document>)
    requires ParkedAll(ts, docs) && Parked(t, docs) && Repr(t) !! ReprAll(ts)
    ensures ParkedAll(ts + [t], docs)
    ensures ReprAll(ts + [t]) == ReprAll(ts) + Repr(t)
  {
    hide Parked, Repr;
  }

  method FindAndQuery(terms: seq<string>, ix: Index, ghost docs: seq<Document>) returns (results: seq<int>)
    requires Serves(ix, docs)
    ensures terms == [] ==> results == []
    ensures terms != [] ==> IsAnswer(results, docs, And(Words(terms)))
  {
    hide HasRanges, ServesTerm, ParkedAll, IsAnswer, Repr, ReprAll, IsValid, AreTermsOf;
    results := [];
    if |terms| == 0 {
      return;
    }
    var cursors := OpenAll(terms, ix, docs);
    if cursors.None? {
      return;
    }
    var isrs := cursors.value;
    SameLength(isrs, terms);
    results := Intersect(isrs, ix, docs);
    CommonIsAnswer(results, isrs, terms, docs);
  }

  lemma SameLength(isrs: seq<Isr>, terms: seq<string>)
    requires AreTermsOf(isrs, terms)
    ensures |isrs| == |terms|
  {
  }

  // advance every cursor to the greatest document; where all meet is a match
  method Intersect(isrs: seq<Isr>, ix: Index, ghost docs: seq<Document>) returns (results: seq<int>)
    requires HasRanges(ix, docs) && isrs != [] && ParkedAll(isrs, docs)
    requires forall t :: t in isrs ==> IsValid(t)
    modifies ReprAll(isrs)
    ensures CommonBelow(results, isrs, docs, |docs|)
  {
    hide HasRanges, ServesTerm, ParkedAll, Good, GoodAll, Seen, SeenAll, FreshAll, ReachedAll, NotBefore, Repr, ReprAll,
         IsValid, DocId, Start, SatAll, NoneIn, CommonBelow, Apart;
    results := [];
    ghost var m := 0;
    StartsOut(isrs, docs);
    while true
      invariant 0 <= m <= |docs|
      invariant Apart(isrs) && GoodAll(isrs, docs) && NotBefore(isrs, docs, m)
      invariant SeenAll(isrs, docs, Start(docs, m))
      invariant CommonBelow(results, isrs, docs, m)
      decreases |docs| - m
    {
      Exist(ReprAll(isrs));
      ReprsArePart(isrs);
      var allValid, maxDoc := MaxDoc(isrs, ix, docs);
      if !allValid {
        OneIsDone(isrs, docs, m);
        NothingBefore(results, isrs, docs, m, |docs|);
        return;
      }
      Round(isrs, docs, m, maxDoc);
      NothingBefore(results, isrs, docs, m, maxDoc);
      var allMatch := AllAt(isrs, ix, docs, maxDoc);
      var target := if allMatch then maxDoc + 1 else maxDoc;
      if allMatch {
        OneMoreCommon(results, isrs, docs, maxDoc);
        results := results + [maxDoc];
      }
      SeenAllIsFresh(isrs, docs, m);
      NotBeforeFirst(isrs, docs);
      var ok := AlignAll(isrs, ix, docs, target, 0, true);
      if !ok {
        NothingBefore(results, isrs, docs, target, |docs|);
        return;
      }
      m := target;
      ReachedIsNotBefore(isrs, docs, m);
    }
  }

  lemma ReachedIsNotBefore(isrs: seq<Isr>, docs: seq<Document>, m: int)
    requires ReachedAll(isrs, docs, m)
    ensures NotBefore(isrs, docs, m)
  {
    hide IsValid, DocId, Repr, ReprAll;
  }

  lemma StartsOut(isrs: seq<Isr>, docs: seq<Document>)
    requires ParkedAll(isrs, docs)
    ensures Apart(isrs) && GoodAll(isrs, docs) && SeenAll(isrs, docs, Start(docs, 0)) && NotBefore(isrs, docs, 0)
    ensures CommonBelow([], isrs, docs, 0)
  {
    hide Good, Seen, DocId, IsValid, SatAll, Repr;
    forall t | t in isrs && IsValid(t) ensures 0 <= DocId(t, docs) {
      SpanFits(t, docs);
    }
  }

  lemma OneIsDone(isrs: seq<Isr>, docs: seq<Document>, m: int)
    requires 0 <= m <= |docs| && SeenAll(isrs, docs, Start(docs, m))
    requires exists t :: t in isrs && !IsValid(t)
    ensures NoneIn(isrs, docs, m, |docs|)
  {
    hide IsValid, DocId, Start, Repr, ReprAll, Sat;
    var t :| t in isrs && !IsValid(t);
    forall x | m <= x < |docs| ensures !Sat(t, docs[x]) {
      StartOrder(docs, m, x);
      assert Seen(t, docs, Start(docs, m));
    }
  }

  // ---- FindOrQuery

  ghost predicate TermBelow(docSet: set<int>, before: set<int>, docs: seq<Document>, term: string, m: int) {
    forall d :: d in docSet <==> d in before || (0 <= d < |docs| && d < m && HasTerm(docs[d], term))
  }

  // the documents of one term, added to the set
  method CollectTerm(docSet: set<int>, term: string, ix: Index, ghost docs: seq<Document>) returns (more: set<int>)
    requires Serves(ix, docs)
    ensures TermBelow(more, docSet, docs, term, |docs|)
  {
    hide HasRanges, ServesTerm, Parked, Good, Seen, DocId, Repr, IsValid, Start, TermBelow, HasTerm, Means;
    var isr := CompileWord(term, ix, docs);
    more := docSet;
    ghost var m := 0;
    NoTermYet(docSet, docs, term);
    NoAnswersYet(isr, docs);
    WordMeansTerm(isr, term);
    while IsValid(isr)
      invariant 0 <= m <= |docs|
      invariant fresh(Repr(isr)) && Good(isr, docs) && Seen(isr, docs, Start(docs, m))
      invariant IsValid(isr) ==> m <= DocId(isr, docs)
      invariant TermBelow(more, docSet, docs, term, m)
      decreases |docs| - m, IsValid(isr)
    {
      Exist(Repr(isr));
      SpanFits(isr, docs);
      var docId := GetCurrentDocId(isr, ix, docs);
      NextOfTerm(more, docSet, isr, docs, term, m, docId);
      more := more + {docId};
      m := docId + 1;
      var ok := SkipToDoc(isr, ix, docs, docId + 1);
      RestOfTerm(more, docSet, isr, docs, term, m);
      if !ok {
        return;
      }
    }
    RestOfTerm(more, docSet, isr, docs, term, m);
  }

  lemma NoTermYet(docSet: set<int>, docs: seq<Document>, term: string)
    ensures TermBelow(docSet, docSet, docs, term, 0)
  {
  }

  lemma WordMeansTerm(t: Isr, term: string)
    requires Means(t, Word(term))
    ensures forall doc: Document :: Sat(t, doc) <==> HasTerm(doc, term)
  {
    hide Sat, HasTerm;
    forall doc: Document ensures Sat(t, doc) <==> HasTerm(doc, term) {
      assert Sat(t, doc) <==> Eval(Word(term), doc);
    }
  }

  lemma NextOfTerm(docSet: set<int>, before: set<int>, t: Isr, docs: seq<Document>, term: string, m: int, d: int)
    requires TermBelow(docSet, before, docs, term, m) && 0 <= m <= d < |docs|
    requires forall doc: Document :: Sat(t, doc) <==> HasTerm(doc, term)
    requires Good(t, docs) && IsValid(t) && d == DocId(t, docs) && Seen(t, docs, Start(docs, m))
    ensures TermBelow(docSet + {d}, before, docs, term, d + 1)
  {
    hide Good, Sat, HasTerm, Repr, DocId, Start, IsValid;
    OnDocument(t, docs);
    forall x | m <= x < d ensures !HasTerm(docs[x], term) {
      StartOrder(docs, m, x);
      assert !Sat(t, docs[x]);
    }
  }

  lemma RestOfTerm(docSet: set<int>, before: set<int>, t: Isr, docs: seq<Document>, term: string, m: int)
    requires TermBelow(docSet, before, docs, term, m) && 0 <= m <= |docs|
    requires forall doc: Document :: Sat(t, doc) <==> HasTerm(doc, term)
    requires m < |docs| && !IsValid(t) ==> Seen(t, docs, Start(docs, m))
    ensures m == |docs| || !IsValid(t) ==> TermBelow(docSet, before, docs, term, |docs|)
  {
    hide Sat, HasTerm, Repr, DocId, Start;
    if !IsValid(t) {
      forall x | m <= x < |docs| ensures !HasTerm(docs[x], term) {
        StartOrder(docs, m, x);
        assert !Sat(t, docs[x]);
      }
    }
  }

  // the elements of a std::set come out in increasing order
  method InOrder(docSet: set<int>, n: nat) returns (s: seq<int>)
    requires forall d :: d in docSet ==> 0 <= d < n
    ensures StrictlyIncreasing(s)
    ensures forall d :: d in s <==> d in docSet
  {
    s := [];
    for k := 0 to n
      invariant StrictlyIncreasing(s)
      invariant forall d :: d in s <==> d in docSet && d < k
    {
      if k in docSet {
        assert forall i :: 0 <= i < |s| ==> s[i] in s;
        s := s + [k];
      }
    }
  }

  method FindOrQuery(terms: seq<string>, ix: Index, ghost docs: seq<Document>) returns (results: seq<int>)
    requires Serves(ix, docs)
    ensures IsAnswer(results, docs, Or(Words(terms)))
  {
    hide ServesTerm, ServesRange, Start, TermBelow, HasTerm, Eval;
    if |terms| == 0 {
      results := [];
      forall d | 0 <= d < |docs| ensures !Eval(Or(Words(terms)), docs[d]) {
        OrOfWords(terms, docs[d]);
      }
      return;
    }
    var docSet: set<int> := {};
    for i := 0 to |terms|
      invariant forall d :: d in docSet <==> 0 <= d < |docs| && exists j :: 0 <= j < i && HasTerm(docs[d], terms[j])
    {
      var more := CollectTerm(docSet, terms[i], ix, docs);
      AnotherTerm(docSet, more, docs, terms, i);
      docSet := more;
    }
    results := InOrder(docSet, |ix.ranges|);
    forall d | 0 <= d < |docs|
      ensures Eval(Or(Words(terms)), docs[d]) <==> exists j :: 0 <= j < |terms| && HasTerm(docs[d], terms[j])
    {
      OrOfWords(terms, docs[d]);
      assert forall j :: 0 <= j < |terms| ==> terms[j] in terms;
    }
  }

  lemma AnotherTerm(docSet: set<int>, more: set<int>, docs: seq<Document>, terms: seq<string>, i: nat)
    requires i < |terms| && TermBelow(more, docSet, docs, terms[i], |docs|)
    requires forall d :: d in docSet <==> 0 <= d < |docs| && exists j :: 0 <= j < i && HasTerm(docs[d], terms[j])
    ensures forall d :: d in more <==> 0 <= d < |docs| && exists j :: 0 <= j < i + 1 && HasTerm(docs[d], terms[j])
  {
    hide HasTerm;
  }

  // ---- the two implementations agree

  lemma AnswersAreUnique(a: seq<int>, b: seq<int>, docs: seq<Document>, q: Query)
    requires IsAnswer(a, docs, q) && IsAnswer(b, docs, q)
    ensures a == b
  {
    hide Eval;
    IncreasingIsUnique(a, b);
  }

  // the solver and the compiled stream give the same lists
  method AgreesWithTree(terms: seq<string>, ix: Index, ghost docs: seq<Document>)
    returns (all: seq<int>, allByTree: seq<int>, some: seq<int>, someByTree: seq<int>)
    requires Serves(ix, docs)
    ensures all == allByTree && some == someByTree
  {
    hide HasRanges, ServesTerm, IsAnswer, Answerable, NotsWellPlaced;
    NoWords(terms);
    WordsAreWellPlaced(terms);
    all := FindAndQuery(terms, ix, docs);
    allByTree := Search(And(Words(terms)), ix, docs);
    if terms != [] {
      AnswersAreUnique(all, allByTree, docs, And(Words(terms)));
    }
    some := FindOrQuery(terms, ix, docs);
    someByTree := Search(Or(Words(terms)), ix, docs);
    if terms != [] {
      AnswersAreUnique(some, someByTree, docs, Or(Words(terms)));
    } else {
      NoneFound(some, docs);
    }
  }

  lemma WordsAreWellPlaced(terms: seq<string>)
    ensures terms != [] ==> NotsWellPlaced(And(Words(terms))) && NotsWellPlaced(Or(Words(terms)))
  {
    if terms != [] {
      assert Words(terms)[0] in Words(terms);
    }
  }

  lemma NoWords(terms: seq<string>)
    ensures terms == [] ==> Answerable(And(Words(terms))).None? && Answerable(Or(Words(terms))).None?
  {
    if terms == [] {
      assert Words(terms) == [];
    }
  }

  lemma NoneFound(matches: seq<int>, docs: seq<Document>)
    requires IsAnswer(matches, docs, Or(Words([])))
    ensures matches == []
  {
    FirstIsIn(matches);
  }

  lemma FirstIsIn(s: seq<int>)
    ensures s != [] ==> s[0] in s
  {
  }
}
