/** The tree of stream readers: words, phrases, conjunctions, disjunctions and
    containers with exclusions. The shape of a tree is fixed when it is built; each
    composite node owns an object with the fields that Next and Seek update. */
module IsrTrees {
  import opened Posting
  import opened Positions
  import opened IndexReading
  import opened WordReading
  import opened PhraseReading

  // the fields of an ISRAnd or an ISRContainer
  class DocMatch {
    const docs: ISREndDoc
    var currentStart: int
    var currentEnd: int
    var currentDoc: int
    var valid: bool

    constructor (docs: ISREndDoc)
      ensures this.docs == docs && !valid && currentDoc == -1
    {
      this.docs := docs;
      currentStart, currentEnd, currentDoc, valid := 0, 0, -1, false;
    }
  }

  // the fields of an ISROr
  class MinMatch {
    var currentStart: int
    var currentEnd: int
    var currentChild: int
    var valid: bool

    constructor ()
      ensures !valid
    {
      currentStart, currentEnd, currentChild, valid := 0, 0, -1, false;
    }
  }

  datatype Isr =
    | WordIsr(word: ISRWord)
    | PhraseIsr(phrase: ISRPhrase)
    | AndIsr(children: seq<Isr>, at: DocMatch)
    | OrIsr(children: seq<Isr>, min: MinMatch)
    | ContainerIsr(contained: seq<Isr>, excluded: seq<Isr>, at: DocMatch)

  // the objects that a tree owns
  ghost function Repr(t: Isr): set<object>
    decreases t
  {
    match t
    case WordIsr(word) => {word}
    case PhraseIsr(phrase) => {phrase} + set w: object | w in phrase.children
    case AndIsr(children, at) => {at, at.docs} + ReprAll(children)
    case OrIsr(children, min) => {min} + ReprAll(children)
    case ContainerIsr(contained, excluded, at) =>
      {at, at.docs} + ReprAll(contained) + ReprAll(excluded)
  }

  ghost function ReprAll(ts: seq<Isr>): set<object>
    decreases ts
  {
    set t, o | t in ts && o in Repr(t) :: o
  }

  ghost predicate Apart(ts: seq<Isr>) {
    forall i, j :: 0 <= i < j < |ts| ==> Repr(ts[i]) !! Repr(ts[j])
  }

  // the documents that a tree stands for
  ghost predicate Sat(t: Isr, doc: Document)
    decreases t
  {
    match t
    case WordIsr(word) => HasTerm(doc, word.term)
    case PhraseIsr(phrase) => HasPhrase(doc, phrase.terms)
    case AndIsr(children, _) => children != [] && forall c | c in children :: Sat(c, doc)
    case OrIsr(children, _) => exists c | c in children :: Sat(c, doc)
    case ContainerIsr(contained, excluded, _) =>
      && contained != []
      && (forall c | c in contained :: Sat(c, doc))
      && (forall x | x in excluded :: !Sat(x, doc))
  }

  ghost predicate SatAll(ts: seq<Isr>, doc: Document) {
    ts != [] && forall t | t in ts :: Sat(t, doc)
  }

  predicate IsValid(t: Isr)
    reads Repr(t)
  {
    match t
    case WordIsr(word) => word.IsValid()
    case PhraseIsr(phrase) => phrase.valid
    case AndIsr(_, at) => at.valid
    case OrIsr(_, min) => min.valid
    case ContainerIsr(_, _, at) => at.valid
  }

  function GetStartLocation(t: Isr): int
    reads Repr(t)
  {
    match t
    case WordIsr(word) => word.currentAbsolutePos
    case PhraseIsr(phrase) => phrase.currentStart
    case AndIsr(_, at) => at.currentStart
    case OrIsr(_, min) => min.currentStart
    case ContainerIsr(_, _, at) => at.currentStart
  }

  function GetEndLocation(t: Isr): int
    reads Repr(t)
  {
    match t
    case WordIsr(word) => word.currentAbsolutePos
    case PhraseIsr(phrase) => phrase.currentEnd
    case AndIsr(_, at) => at.currentEnd
    case OrIsr(_, min) => min.currentEnd
    case ContainerIsr(_, _, at) => at.currentEnd
  }

  // the document of the current match: composites over documents store it, the
  // others derive it from the start position
  ghost function DocId(t: Isr, docs: seq<Document>): int
    reads Repr(t)
  {
    match t
    case AndIsr(_, at) => at.currentDoc
    case ContainerIsr(_, _, at) => at.currentDoc
    case _ => DocumentAtOrAfter(docs, 0, GetStartLocation(t))
  }

  // a valid cursor sits on a match that lies within a document it stands for
  ghost predicate Sits(t: Isr, docs: seq<Document>)
    reads Repr(t)
  {
    IsValid(t) ==>
      var d := DocId(t, docs);
      && 0 <= d < |docs|
      && Start(docs, d) <= GetStartLocation(t) <= GetEndLocation(t) <= End(docs, d)
      && Sat(t, docs[d])
  }

  // ---- matches by position

  // the start of the document that holds a position
  function DocStart(docs: seq<Document>, p: int): nat {
    Start(docs, DocumentAtOrAfter(docs, 0, p))
  }

  // a match starts at p. A conjunction has one match in each document that satisfies it,
  // where the first match of any of its parts starts
  ghost predicate StartsAt(t: Isr, docs: seq<Document>, p: int)
    decreases t
  {
    match t
    case WordIsr(word) => exists dec :: dec != Eod && IsHit(docs, word.term, Hit(p, dec))
    case PhraseIsr(phrase) => phrase.terms != [] && PhraseHit(docs, phrase.terms, p)
    case OrIsr(children, _) => exists c | c in children :: StartsAt(c, docs, p)
    case AndIsr(children, _) =>
      && HoldsAround(t, docs, p)
      && (exists c | c in children :: StartsAt(c, docs, p))
      && (forall c, q | c in children && DocStart(docs, p) <= q < p :: !StartsAt(c, docs, q))
    case ContainerIsr(contained, _, _) =>
      && HoldsAround(t, docs, p)
      && (exists c | c in contained :: StartsAt(c, docs, p))
      && (forall c, q | c in contained && DocStart(docs, p) <= q < p :: !StartsAt(c, docs, q))
  }

  // the position is in a document that the tree stands for
  ghost predicate HoldsAround(t: Isr, docs: seq<Document>, p: int) {
    var d := DocumentAtOrAfter(docs, 0, p);
    d < |docs| && Start(docs, d) <= p && Sat(t, docs[d])
  }

  // the low-water mark: in the documents that start at or after the location, the cursor has
  // skipped no match of the tree, nor any document that the tree stands for
  ghost predicate Seen(t: Isr, docs: seq<Document>, location: int)
    reads Repr(t)
  {
    SeenDocs(t, docs, location) && SeenStarts(t, docs, location)
  }

  ghost predicate SeenDocs(t: Isr, docs: seq<Document>, location: int)
    reads Repr(t)
  {
    forall x :: 0 <= x < |docs| && location <= Start(docs, x) && Sat(t, docs[x]) ==>
                  IsValid(t) && DocId(t, docs) <= x
  }

  ghost predicate SeenStarts(t: Isr, docs: seq<Document>, location: int)
    reads Repr(t)
  {
    forall p :: StartsAt(t, docs, p) && location <= DocStart(docs, p) ==> IsValid(t) && GetStartLocation(t) <= p
  }

  ghost predicate SeenAll(ts: seq<Isr>, docs: seq<Document>, location: int)
    reads ReprAll(ts)
  {
    forall t | t in ts :: Seen(t, docs, location)
  }

  // words, phrases and alternatives of them, which go by positions and not by documents
  predicate IsPlain(t: Isr)
    decreases t
  {
    match t
    case WordIsr(_) => true
    case PhraseIsr(_) => true
    case OrIsr(children, _) => forall c | c in children :: IsPlain(c)
    case _ => false
  }

  // the cursor has skipped no match that starts at or after `from`, be it within a document
  ghost predicate Low(t: Isr, docs: seq<Document>, from: int)
    reads Repr(t)
  {
    forall p :: from <= p && StartsAt(t, docs, p) ==> IsValid(t) && GetStartLocation(t) <= p
  }

  ghost predicate LowAll(ts: seq<Isr>, docs: seq<Document>, from: int)
    reads ReprAll(ts)
  {
    forall t | t in ts :: Low(t, docs, from)
  }

  // a cursor on the first match of its document, none of the tree skipped from there on
  ghost predicate Fresh(t: Isr, docs: seq<Document>)
    reads Repr(t)
  {
    IsValid(t) ==> Seen(t, docs, DocStart(docs, GetStartLocation(t)))
  }

  ghost predicate FreshAll(ts: seq<Isr>, docs: seq<Document>)
    reads ReprAll(ts)
  {
    forall t | t in ts :: Fresh(t, docs)
  }

  ghost predicate NotBefore(ts: seq<Isr>, docs: seq<Document>, m: int)
    reads ReprAll(ts)
  {
    forall t | t in ts && IsValid(t) :: m <= DocId(t, docs)
  }

  // the excluded children have skipped nothing from some document on, and no contained child
  // stands before it
  ghost predicate Guarded(contained: seq<Isr>, excluded: seq<Isr>, docs: seq<Document>)
    reads ReprAll(contained), ReprAll(excluded)
  {
    exists m: nat :: m <= |docs| && NotBefore(contained, docs, m) && SeenAll(excluded, docs, Start(docs, m))
  }

  // the invariant of a tree
  ghost predicate Good(t: Isr, docs: seq<Document>)
    reads Repr(t)
    decreases t
  {
    && Sits(t, docs)
    && match t
       case WordIsr(word) => word.Valid() && word.hits == Hits(docs, word.term)
       case PhraseIsr(phrase) => phrase.Valid(docs) && phrase.terms != []
       case AndIsr(children, at) =>
         && {at, at.docs} !! ReprAll(children)
         && Apart(children)
         && (forall c | c in children :: Good(c, docs))
         && AtDocs(at, docs)
         && FreshAll(children, docs)
         && (at.valid ==> 0 <= at.currentDoc < |docs| && Coincide(children, docs, at))
       case OrIsr(children, min) =>
         && min !in ReprAll(children)
         && Apart(children)
         && (forall c | c in children :: Good(c, docs))
         && (!min.valid ==> forall c | c in children :: !IsValid(c))
         && (min.valid ==>
               && PicksMin(children, min)
               && 0 <= DocId(t, docs) < |docs|
               && SeenAll(children, docs, End(docs, DocId(t, docs)) + 1)
               && (IsPlain(t) ==> LowAll(children, docs, min.currentStart + 1)))
       case ContainerIsr(contained, excluded, at) =>
         && {at, at.docs} !! ReprAll(contained) !! ReprAll(excluded)
         && Apart(contained) && Apart(excluded)
         && (forall c | c in contained :: Good(c, docs))
         && (forall x | x in excluded :: Good(x, docs))
         && AtDocs(at, docs)
         && FreshAll(contained, docs) && Guarded(contained, excluded, docs)
         && (at.valid ==> 0 <= at.currentDoc < |docs| && Coincide(contained, docs, at))
  }

  ghost predicate AtDocs(at: DocMatch, docs: seq<Document>)
    reads at, at.docs
  {
    at.docs.docs == docs && at.docs.Valid()
  }

  // every child is on the current document, and the span covers their matches
  ghost predicate Coincide(ts: seq<Isr>, docs: seq<Document>, at: DocMatch)
    reads at, ReprAll(ts)
  {
    && ts != []
    && (forall t | t in ts :: IsValid(t) && DocId(t, docs) == at.currentDoc)
    && SpanIs(ts, at.currentStart, at.currentEnd)
  }

  ghost predicate SpanIs(ts: seq<Isr>, start: int, end: int)
    reads ReprAll(ts)
  {
    && (forall t | t in ts :: start <= GetStartLocation(t) && GetEndLocation(t) <= end)
    && (exists t | t in ts :: start == GetStartLocation(t))
    && (exists t | t in ts :: end == GetEndLocation(t))
  }

  // the current child is the earliest of the valid children with the least start
  ghost predicate PicksMin(ts: seq<Isr>, min: MinMatch)
    reads min, ReprAll(ts)
  {
    Picks(ts, min.currentChild, min.currentStart, min.currentEnd)
  }

  ghost predicate Picks(ts: seq<Isr>, child: int, start: int, end: int)
    reads ReprAll(ts)
  {
    && 0 <= child < |ts|
    && IsValid(ts[child])
    && start == GetStartLocation(ts[child])
    && end == GetEndLocation(ts[child])
    && (forall t | t in ts && IsValid(t) :: start <= GetStartLocation(t))
    && (forall i :: 0 <= i < child && IsValid(ts[i]) ==> start < GetStartLocation(ts[i]))
  }

  // ---- positions and documents

  lemma StartOrder(docs: seq<Document>, i: nat, j: nat)
    requires i <= |docs| && j <= |docs|
    ensures Start(docs, i) <= Start(docs, j) <==> i <= j
  {
    hide Start, End;
    if i < j {
      RangesAreDisjoint(docs, i, j);
    } else if j < i {
      RangesAreDisjoint(docs, j, i);
    }
  }

  lemma DocIdIs(docs: seq<Document>, pos: int, d: nat)
    requires d < |docs| && Start(docs, d) <= pos <= End(docs, d)
    ensures DocumentAtOrAfter(docs, 0, pos) == d
  {
    hide Start, End, DocumentAtOrAfter;
    forall k: nat | k < d ensures End(docs, k) < pos {
      RangesAreDisjoint(docs, k, d);
    }
    DocumentAtOrAfterIsFirst(docs, pos, d);
  }

  // a document at or before a position does not come after the document that holds it
  lemma DocumentOrder(docs: seq<Document>, d: nat, x: nat, p: int)
    requires d < |docs| && x < |docs|
    requires Start(docs, d) <= p <= End(docs, x)
    ensures d <= x
  {
    hide Start, End;
    if x < d {
      RangesAreDisjoint(docs, x, d);
    }
  }

  lemma EndIsBeforeNext(docs: seq<Document>, d: nat)
    requires d < |docs|
    ensures End(docs, d) + 1 == Start(docs, d + 1)
  {
  }

  lemma SeenLater(t: Isr, docs: seq<Document>, a: int, b: int)
    requires Seen(t, docs, a) && a <= b
    ensures Seen(t, docs, b)
  {
    hide Start, Sat, DocId;
  }

  // ---- the leaves

  ghost predicate IsLeafOf(word: ISRWord, docs: seq<Document>)
    reads word
  {
    word.Valid() && word.hits == Hits(docs, word.term)
  }

  lemma WordSits(word: ISRWord, docs: seq<Document>)
    requires IsLeafOf(word, docs)
    ensures Sits(WordIsr(word), docs)
  {
    hide Hits, Start, DocumentAtOrAfter, Decodes;
    if word.IsValid() {
      HitsAre(docs, word.term);
      var h := word.hits[word.currentPostIdx];
      assert h in word.hits;
      var d: nat :| IsHitIn(docs, d, word.term, h);
      assert docs[d][h.pos - Start(docs, d)].term == word.term;
      DocIdIs(docs, h.pos, d);
    }
  }

  lemma WordSeen(word: ISRWord, docs: seq<Document>, i: nat, location: int, from: int)
    requires IsLeafOf(word, docs) && i <= |word.hits|
    requires word.currentPostIdx == ScanFrom(word.hits, i, location) && location <= from
    requires i > 0 ==> word.hits[i - 1].pos < from
    ensures Seen(WordIsr(word), docs, from)
  {
    hide Hits, Start, DocumentAtOrAfter, Decodes, ScanFrom, StartsAt, SeenStarts;
    WordLow(word, docs, i, location, from);
    LowIsSeen(WordIsr(word), docs, from);
    HitsAre(docs, word.term);
    WordSits(word, docs);
    forall x | 0 <= x < |docs| && from <= Start(docs, x) && HasTerm(docs[x], word.term)
      ensures word.IsValid() && DocId(WordIsr(word), docs) <= x
    {
      var k :| 0 <= k < |docs[x]| && docs[x][k].term == word.term;
      var h := Hit(Start(docs, x) + k, docs[x][k].dec);
      assert IsHitIn(docs, x, word.term, h);
      ScanReaches(word.hits, i, location, h);
      DocumentOrder(docs, DocId(WordIsr(word), docs), x, word.currentAbsolutePos);
    }
  }

  lemma PhraseSits(phrase: ISRPhrase, docs: seq<Document>)
    requires phrase.Valid(docs) && phrase.terms != []
    ensures Sits(PhraseIsr(phrase), docs)
  {
    hide Hits, Start, DocumentAtOrAfter, PhraseHitOf, ISRWord.Valid, ISRPhrase.WordsValid;
    if phrase.valid {
      var p := phrase.currentStart;
      var d := DocumentOfPhrase(docs, phrase.terms, p, phrase.currentDecoration);
      assert HasPhrase(docs[d], phrase.terms);
      DocIdIs(docs, p, d);
    }
  }

  lemma PhraseSeen(phrase: ISRPhrase, docs: seq<Document>, from: int)
    requires phrase.Valid(docs) && phrase.terms != []
    requires if phrase.valid then NoPhraseIn(docs, phrase.terms, from, phrase.currentStart)
             else NoPhraseFrom(docs, phrase.terms, from)
    ensures Seen(PhraseIsr(phrase), docs, from)
  {
    hide Hits, Start, DocumentAtOrAfter, PhraseHitOf, ISRWord.Valid, ISRPhrase.WordsValid, PhraseAt, StartsAt,
         SeenStarts;
    PhraseLow(phrase, docs, from);
    LowIsSeen(PhraseIsr(phrase), docs, from);
    PhraseSits(phrase, docs);
    forall x | 0 <= x < |docs| && from <= Start(docs, x) && HasPhrase(docs[x], phrase.terms)
      ensures phrase.valid && DocId(PhraseIsr(phrase), docs) <= x
    {
      var k, dec :| PhraseAt(docs[x], phrase.terms, k, dec);
      PhraseAtIsHit(docs, phrase.terms, x, k, dec);
      assert PhraseHit(docs, phrase.terms, Start(docs, x) + k);
      DocumentOrder(docs, DocId(PhraseIsr(phrase), docs), x, phrase.currentStart);
    }
  }

  // a match starts in a document that the tree stands for
  lemma {:induction false} StartsInDocument(t: Isr, docs: seq<Document>, p: int)
    requires StartsAt(t, docs, p)
    ensures HoldsAround(t, docs, p)
    decreases t
  {
    match t
    case WordIsr(word) => WordStartsInDocument(word, docs, p);
    case PhraseIsr(phrase) => PhraseStartsInDocument(phrase, docs, p);
    case OrIsr(children, _) =>
      var c :| c in children && StartsAt(c, docs, p);
      StartsInDocument(c, docs, p);
    case _ =>
  }

  lemma WordStartsInDocument(word: ISRWord, docs: seq<Document>, p: int)
    requires StartsAt(WordIsr(word), docs, p)
    ensures HoldsAround(WordIsr(word), docs, p)
  {
    hide Start, DocumentAtOrAfter;
    var dec :| dec != Eod && IsHit(docs, word.term, Hit(p, dec));
    var d: nat :| IsHitIn(docs, d, word.term, Hit(p, dec));
    assert docs[d][p - Start(docs, d)].term == word.term;
    DocIdIs(docs, p, d);
  }

  lemma PhraseStartsInDocument(phrase: ISRPhrase, docs: seq<Document>, p: int)
    requires StartsAt(PhraseIsr(phrase), docs, p)
    ensures HoldsAround(PhraseIsr(phrase), docs, p)
  {
    hide Start, DocumentAtOrAfter, PhraseHitOf, PhraseAt;
    var dec :| PhraseHitOf(docs, phrase.terms, p, dec);
    var d := DocumentOfPhrase(docs, phrase.terms, p, dec);
    assert HasPhrase(docs[d], phrase.terms);
    DocIdIs(docs, p, d);
  }

  lemma LowIsSeen(t: Isr, docs: seq<Document>, from: int)
    requires Low(t, docs, from)
    ensures SeenStarts(t, docs, from)
  {
    hide StartsAt, Start, DocumentAtOrAfter, Sat;
    forall p | StartsAt(t, docs, p) && from <= DocStart(docs, p) ensures from <= p {
      StartsInDocument(t, docs, p);
    }
  }

  // the mark may move to where it takes in no new document of the tree
  lemma SeenMoves(t: Isr, docs: seq<Document>, a: int, b: int)
    requires Seen(t, docs, a)
    requires forall y :: 0 <= y < |docs| && b <= Start(docs, y) && Sat(t, docs[y]) ==> a <= Start(docs, y)
    ensures Seen(t, docs, b)
  {
    hide StartsAt, Start, Sat, DocId, DocumentAtOrAfter;
    forall p | StartsAt(t, docs, p) && b <= DocStart(docs, p) ensures a <= DocStart(docs, p) {
      StartsInDocument(t, docs, p);
    }
  }

  lemma LowLater(t: Isr, docs: seq<Document>, a: int, b: int)
    requires Low(t, docs, a) && a <= b
    ensures Low(t, docs, b)
  {
    hide StartsAt;
  }

  lemma LowAllLater(ts: seq<Isr>, docs: seq<Document>, a: int, b: int)
    requires LowAll(ts, docs, a) && a <= b
    ensures LowAll(ts, docs, b)
  {
    hide Low, Repr, ReprAll;
    forall t | t in ts ensures Low(t, docs, b) {
      LowLater(t, docs, a, b);
    }
  }

  lemma WordLow(word: ISRWord, docs: seq<Document>, i: nat, location: int, from: int)
    requires IsLeafOf(word, docs) && i <= |word.hits|
    requires word.currentPostIdx == ScanFrom(word.hits, i, location) && location <= from
    requires i > 0 ==> word.hits[i - 1].pos < from
    ensures Low(WordIsr(word), docs, from)
  {
    hide Hits, Decodes, ScanFrom, IsHit;
    HitsAre(docs, word.term);
    forall p, dec | from <= p && dec != Eod && IsHit(docs, word.term, Hit(p, dec))
      ensures word.IsValid() && word.currentAbsolutePos <= p
    {
      ScanReaches(word.hits, i, location, Hit(p, dec));
    }
  }

  lemma PhraseLow(phrase: ISRPhrase, docs: seq<Document>, from: int)
    requires if phrase.valid then NoPhraseIn(docs, phrase.terms, from, phrase.currentStart)
             else NoPhraseFrom(docs, phrase.terms, from)
    ensures Low(PhraseIsr(phrase), docs, from)
  {
    hide PhraseHit;
  }

  // the first match that starts at or after the location, or none when there is none
  ghost predicate IsFirstMatch(t: Isr, docs: seq<Document>, location: int)
    reads Repr(t)
  {
    if IsValid(t) then
      var start := GetStartLocation(t);
      && location <= start && StartsAt(t, docs, start)
      && forall p :: location <= p < start ==> !StartsAt(t, docs, p)
    else forall p :: location <= p ==> !StartsAt(t, docs, p)
  }

  // a valid cursor is on a match
  lemma {:induction false} IsOnMatch(t: Isr, docs: seq<Document>)
    requires Good(t, docs) && IsValid(t)
    ensures StartsAt(t, docs, GetStartLocation(t))
    decreases t
  {
    match t {
      case WordIsr(word) => WordIsOnMatch(word, docs);
      case PhraseIsr(phrase) => PhraseIsOnMatch(phrase, docs);
      case OrIsr(children, min) =>
        var c := PickedIsPart(t, docs);
        IsOnMatch(c, docs);
        PartStarts(t, c, docs, GetStartLocation(c));
      case _ =>
        var c := FirstIsPart(t, docs);
        IsOnMatch(c, docs);
        FirstPartStarts(t, c, docs);
    }
  }

  lemma WordIsOnMatch(word: ISRWord, docs: seq<Document>)
    requires IsLeafOf(word, docs) && word.IsValid()
    ensures StartsAt(WordIsr(word), docs, word.currentAbsolutePos)
  {
    hide Hits, Decodes, IsHit;
    HitsAre(docs, word.term);
    var h := word.hits[word.currentPostIdx];
    assert h in word.hits && h == Hit(word.currentAbsolutePos, h.dec);
  }

  lemma PhraseIsOnMatch(phrase: ISRPhrase, docs: seq<Document>)
    requires phrase.Valid(docs) && phrase.terms != [] && phrase.valid
    ensures StartsAt(PhraseIsr(phrase), docs, phrase.currentStart)
  {
    hide Hits, PhraseHitOf, ISRWord.Valid, ISRPhrase.WordsValid;
  }

  lemma PickedIsPart(t: Isr, docs: seq<Document>) returns (c: Isr)
    requires Good(t, docs) && t.OrIsr? && IsValid(t)
    ensures c in t.children && Good(c, docs) && IsValid(c)
    ensures GetStartLocation(c) == GetStartLocation(t)
  {
    hide Sits, SeenAll, LowAll, Apart, ReprAll, Repr, DocId, Start, End, IsPlain;
    c := t.children[t.min.currentChild];
    assert c in t.children;
  }

  lemma PartStarts(t: Isr, c: Isr, docs: seq<Document>, p: int)
    requires t.OrIsr? && c in t.children && StartsAt(c, docs, p)
    ensures StartsAt(t, docs, p)
  {
  }

  // the children that a conjunction takes its span from
  function Parts(t: Isr): seq<Isr> {
    match t
    case AndIsr(children, _) => children
    case ContainerIsr(contained, _, _) => contained
    case _ => []
  }

  lemma FirstIsPart(t: Isr, docs: seq<Document>) returns (c: Isr)
    requires Good(t, docs) && (t.AndIsr? || t.ContainerIsr?) && IsValid(t)
    ensures c in Parts(t) && c < t && Good(c, docs) && IsValid(c)
    ensures GetStartLocation(c) == GetStartLocation(t)
  {
    hide Sits, SeenAll, Apart, ReprAll, Repr, DocId, Start, End, IsPlain, LowAll, PicksMin;
    c :| c in Parts(t) && GetStartLocation(c) == GetStartLocation(t);
  }

  lemma FirstPartStarts(t: Isr, c: Isr, docs: seq<Document>)
    requires Good(t, docs) && (t.AndIsr? || t.ContainerIsr?) && IsValid(t)
    requires c in Parts(t) && StartsAt(c, docs, GetStartLocation(t))
    ensures StartsAt(t, docs, GetStartLocation(t))
  {
    hide Good, Start, End, Repr, ReprAll, DocumentAtOrAfter, Sat;
    SpanFits(t, docs);
    GoodSits(t, docs);
    DocIdIs(docs, GetStartLocation(t), DocId(t, docs));
    forall x, q | x in Parts(t) && Start(docs, DocId(t, docs)) <= q < GetStartLocation(t)
      ensures !StartsAt(x, docs, q)
    {
      if StartsAt(x, docs, q) {
        NoEarlierPart(t, x, docs, q);
      }
    }
  }

  // the document start of a cursor is that of its match
  lemma DocStartIs(t: Isr, docs: seq<Document>)
    requires Good(t, docs) && IsValid(t)
    ensures 0 <= DocId(t, docs) < |docs| && DocStart(docs, GetStartLocation(t)) == Start(docs, DocId(t, docs))
  {
    hide Good, Start, End, DocId, Repr, DocumentAtOrAfter;
    SpanFits(t, docs);
    DocIdIs(docs, GetStartLocation(t), DocId(t, docs));
  }

  lemma FreshOn(ts: seq<Isr>, docs: seq<Document>, d: nat)
    requires GoodAll(ts, docs) && FreshAll(ts, docs) && AllOn(ts, docs, d) && d < |docs|
    ensures SeenAll(ts, docs, Start(docs, d))
  {
    hide Good, Seen, Start, DocId, DocStart, Repr, ReprAll, IsValid;
    forall t | t in ts ensures Seen(t, docs, Start(docs, d)) {
      DocStartIs(t, docs);
      assert Fresh(t, docs);
    }
  }

  lemma SeenIsFresh(t: Isr, docs: seq<Document>, m: nat)
    requires Good(t, docs) && m <= |docs| && Seen(t, docs, Start(docs, m)) && (IsValid(t) ==> m <= DocId(t, docs))
    ensures Fresh(t, docs)
  {
    hide Good, Seen, Start, DocId, DocStart, Repr;
    if IsValid(t) {
      DocStartIs(t, docs);
      StartOrder(docs, m, DocId(t, docs));
      SeenLater(t, docs, Start(docs, m), Start(docs, DocId(t, docs)));
    }
  }

  // the parts of a valid conjunction are on its document and have skipped nothing of it; an
  // excluded child has neither
  lemma PartsAreHere(t: Isr, docs: seq<Document>)
    requires Good(t, docs) && (t.AndIsr? || t.ContainerIsr?) && IsValid(t)
    ensures 0 <= DocId(t, docs) < |docs| && SeenAll(Parts(t), docs, Start(docs, DocId(t, docs)))
    ensures t.ContainerIsr? ==> SeenAll(t.excluded, docs, Start(docs, DocId(t, docs)))
  {
    hide Sits, Seen, SeenAll, Fresh, SpanIs, Start, End, Apart, Repr, ReprAll, AtDocs, PicksMin, LowAll, IsPlain;
    FreshOn(Parts(t), docs, DocId(t, docs));
    if t.ContainerIsr? {
      var m: nat :| m <= |docs| && NotBefore(t.contained, docs, m) && SeenAll(t.excluded, docs, Start(docs, m));
      assert t.contained[0] in t.contained;
      StartOrder(docs, m, t.at.currentDoc);
      SeenAllFrom(t.excluded, docs, Start(docs, m), Start(docs, t.at.currentDoc));
    }
  }

  lemma NoEarlierPart(t: Isr, x: Isr, docs: seq<Document>, q: int)
    requires Good(t, docs) && (t.AndIsr? || t.ContainerIsr?) && IsValid(t) && x in Parts(t)
    requires 0 <= DocId(t, docs) < |docs| && StartsAt(x, docs, q)
    requires Start(docs, DocId(t, docs)) <= q <= End(docs, DocId(t, docs))
    ensures GetStartLocation(t) <= q
  {
    hide Sits, StartsAt, Start, End, Apart, Repr, ReprAll, DocumentAtOrAfter, SeenDocs, IsPlain, LowAll, PicksMin,
         FreshAll, Guarded;
    DocIdIs(docs, q, DocId(t, docs));
    PartsAreHere(t, docs);
    assert Seen(x, docs, Start(docs, DocId(t, docs)));
  }

  // a conjunction whose documents are accounted for has skipped no match of them either
  lemma ConjunctionSeen(t: Isr, docs: seq<Document>, location: int)
    requires Good(t, docs) && (t.AndIsr? || t.ContainerIsr?) && SeenDocs(t, docs, location)
    ensures Seen(t, docs, location)
  {
    hide Good, Start, End, Repr, ReprAll, DocumentAtOrAfter, Sat, DocId;
    forall p | StartsAt(t, docs, p) && location <= DocStart(docs, p)
      ensures IsValid(t) && GetStartLocation(t) <= p
    {
      StartsInDocument(t, docs, p);
      var d := DocumentAtOrAfter(docs, 0, p);
      SpanFits(t, docs);
      if DocId(t, docs) < d {
        LaterStart(docs, DocId(t, docs), d, GetStartLocation(t), p);
      } else {
        var x :| x in Parts(t) && StartsAt(x, docs, p);
        NoEarlierPart(t, x, docs, p);
      }
    }
  }

  // seen from a document on is seen match by match
  lemma SeenIsLow(t: Isr, docs: seq<Document>, m: nat)
    requires m <= |docs| && SeenStarts(t, docs, Start(docs, m))
    ensures Low(t, docs, Start(docs, m))
  {
    hide StartsAt, Start, DocumentAtOrAfter, Sat;
    forall p | StartsAt(t, docs, p) && Start(docs, m) <= p ensures Start(docs, m) <= DocStart(docs, p) {
      StartsInDocument(t, docs, p);
      var d := DocumentAtOrAfter(docs, 0, p);
      if m < |docs| {
        DocumentOrder(docs, m, d, p);
      } else {
        RangesAreDisjoint(docs, d, m);
      }
      StartOrder(docs, m, d);
    }
  }

  lemma LowIsFirst(t: Isr, docs: seq<Document>, location: int)
    requires Good(t, docs) && Low(t, docs, location)
    requires IsValid(t) ==> location <= GetStartLocation(t)
    ensures IsFirstMatch(t, docs, location)
  {
    hide Good, StartsAt;
    if IsValid(t) {
      IsOnMatch(t, docs);
    }
  }

  // a tree that has come to a document, and skipped nothing from there on, is on its first
  // match from the start of that document
  lemma SeenIsFirst(t: Isr, docs: seq<Document>, m: nat)
    requires Good(t, docs) && m <= |docs| && Seen(t, docs, Start(docs, m))
    requires IsValid(t) ==> m <= DocId(t, docs)
    ensures IsFirstMatch(t, docs, Start(docs, m))
  {
    hide Good, StartsAt, Start, End, DocId, SeenDocs, SeenStarts, Low, IsFirstMatch, Repr;
    SeenIsLow(t, docs, m);
    if IsValid(t) {
      SpanFits(t, docs);
      StartOrder(docs, m, DocId(t, docs));
    }
    LowIsFirst(t, docs, Start(docs, m));
  }

  // ---- reading the current document

  method GetCurrentDocId(t: Isr, ix: Index, ghost docs: seq<Document>) returns (d: int)
    requires HasRanges(ix, docs) && Good(t, docs)
    ensures IsValid(t) ==> d == DocId(t, docs)
    ensures (t.AndIsr? || t.ContainerIsr?) ==> d == DocId(t, docs)
    ensures !(t.AndIsr? || t.ContainerIsr?) && !IsValid(t) ==> d == -1
  {
    hide Good, HasRanges, Start, End, Sat, DocumentAtOrAfter;
    GoodSits(t, docs);
    match t
    case AndIsr(_, at) => d := at.currentDoc;
    case ContainerIsr(_, _, at) => d := at.currentDoc;
    case _ =>
      if !IsValid(t) {
        return -1;
      }
      d := DocumentAt(ix, docs, GetStartLocation(t));
      if d >= 0 {
        DocIdIs(docs, GetStartLocation(t), d);
      }
  }

  lemma GoodSits(t: Isr, docs: seq<Document>)
    requires Good(t, docs)
    ensures Sits(t, docs)
  {
  }

  // ---- conjunction: bringing all children to one document

  ghost predicate GoodAll(ts: seq<Isr>, docs: seq<Document>)
    reads ReprAll(ts)
  {
    forall t | t in ts :: Good(t, docs)
  }

  ghost predicate NoneIn(ts: seq<Isr>, docs: seq<Document>, lo: int, hi: int) {
    forall x :: 0 <= x < |docs| && lo <= x < hi ==> !SatAll(ts, docs[x])
  }

  ghost predicate ReachedAll(ts: seq<Isr>, docs: seq<Document>, target: int)
    reads ReprAll(ts)
  {
    forall t | t in ts :: IsValid(t) && target <= DocId(t, docs)
  }

  ghost predicate AllOn(ts: seq<Isr>, docs: seq<Document>, d: int)
    reads ReprAll(ts)
  {
    forall t | t in ts :: IsValid(t) && DocId(t, docs) == d
  }

  // objects that a set expression mentions exist already
  lemma Exist(objects: set<object>)
    ensures forall o :: o in objects ==> allocated(o)
  {
  }

  // a child is brought to the target document or the next one it stands for; `seen` says that
  // it has skipped nothing from the target on, `m` that it does not stand before document m
  method AlignOne(t: Isr, ix: Index, ghost docs: seq<Document>, target: int, ghost m: int, ghost seen: bool)
    returns (ok: bool)
    requires HasRanges(ix, docs) && Good(t, docs) && 0 <= target <= |docs|
    requires Fresh(t, docs) && (IsValid(t) ==> m <= DocId(t, docs)) && (seen ==> Seen(t, docs, Start(docs, target)))
    modifies if IsValid(t) && target <= DocId(t, docs) then {} else Repr(t)
    ensures Good(t, docs) && Fresh(t, docs) && (IsValid(t) ==> m <= DocId(t, docs))
    ensures ok ==> IsValid(t) && target <= DocId(t, docs)
    ensures seen && ok ==> Seen(t, docs, Start(docs, target))
    ensures seen && !ok ==> forall x :: target <= x < |docs| ==> !Sat(t, docs[x])
    ensures old(IsValid(t) && target <= DocId(t, docs)) ==> ok
    decreases t, 6
  {
    hide Good, HasRanges, Sat, DocId, Start, DocStart, IsFirstMatch, SeenStarts;
    Exist(Repr(t));
    GoodSits(t, docs);
    forall x | target <= x < |docs| ensures Start(docs, target) <= Start(docs, x) {
      StartOrder(docs, target, x);
    }
    if !IsValid(t) {
      return false;
    }
    var cd := GetCurrentDocId(t, ix, docs);
    if cd < target {
      ok := SkipToDoc(t, ix, docs, target);
      if target < |docs| {
        SeenIsFresh(t, docs, target);
      }
      return ok;
    }
    return true;
  }

  // the same, one child among others
  method AlignAt(ts: seq<Isr>, i: nat, ix: Index, ghost docs: seq<Document>, target: int, ghost m: int,
                 ghost seen: bool)
    returns (ok: bool)
    requires HasRanges(ix, docs) && Apart(ts) && GoodAll(ts, docs) && 0 <= target <= |docs| && i < |ts|
    requires FreshAll(ts, docs) && NotBefore(ts, docs, m) && ReachedAll(ts[..i], docs, target)
    requires seen ==> SeenAll(ts, docs, Start(docs, target))
    modifies if IsValid(ts[i]) && target <= DocId(ts[i], docs) then {} else Repr(ts[i])
    ensures GoodAll(ts, docs) && FreshAll(ts, docs) && NotBefore(ts, docs, m)
    ensures ok ==> ReachedAll(ts[..i + 1], docs, target)
    ensures seen && ok ==> SeenAll(ts, docs, Start(docs, target))
    ensures seen && !ok ==> NoneIn(ts, docs, target, |docs|)
    ensures old(IsValid(ts[i]) && target <= DocId(ts[i], docs)) ==> ok
    decreases ts, 0
  {
    hide Good, HasRanges, Seen, Fresh, Sat, DocId, Start, IsValid, Repr, ReprAll, Apart;
    Exist(ReprAll(ts));
    OthersAreApart(ts, i);
    ok := AlignOne(ts[i], ix, docs, target, m, seen);
  }

  method AlignAll(ts: seq<Isr>, ix: Index, ghost docs: seq<Document>, target: int, ghost m: int, ghost seen: bool)
    returns (ok: bool)
    requires HasRanges(ix, docs) && Apart(ts) && GoodAll(ts, docs) && 0 <= target <= |docs|
    requires FreshAll(ts, docs) && NotBefore(ts, docs, m)
    requires seen ==> SeenAll(ts, docs, Start(docs, target))
    modifies if ReachedAll(ts, docs, target) then {} else ReprAll(ts)
    ensures GoodAll(ts, docs) && FreshAll(ts, docs) && NotBefore(ts, docs, m)
    ensures ok ==> ReachedAll(ts, docs, target)
    ensures seen && ok ==> SeenAll(ts, docs, Start(docs, target))
    ensures seen && !ok ==> NoneIn(ts, docs, target, |docs|)
    ensures old(ReachedAll(ts, docs, target)) ==> ok
    decreases ts, 1
  {
    hide *;
    AllOf(ts, docs, target);
    for i := 0 to |ts|
      invariant GoodAll(ts, docs) && FreshAll(ts, docs) && NotBefore(ts, docs, m)
      invariant seen ==> SeenAll(ts, docs, Start(docs, target))
      invariant ReachedAll(ts[..i], docs, target)
      invariant old(ReachedAll(ts, docs, target)) ==> ReachedAll(ts, docs, target)
    {
      PartOfAll(ts, i);
      PartReached(ts, docs, target, i);
      Exist(ReprAll(ts));
      ok := AlignAt(ts, i, ix, docs, target, m, seen);
      if !ok {
        return false;
      }
    }
    assert ts[..|ts|] == ts;
    return true;
  }

  lemma PartReached(ts: seq<Isr>, docs: seq<Document>, target: int, i: nat)
    requires i < |ts|
    ensures ReachedAll(ts, docs, target) ==> IsValid(ts[i]) && target <= DocId(ts[i], docs)
  {
    hide IsValid, DocId;
  }

  // all children on one document, the target or a later one
  ghost predicate Together(ts: seq<Isr>, docs: seq<Document>, target: int)
    reads ReprAll(ts)
  {
    ts != [] && target <= DocId(ts[0], docs) && AllOn(ts, docs, DocId(ts[0], docs))
  }

  lemma TogetherReached(ts: seq<Isr>, docs: seq<Document>, target: int)
    ensures Together(ts, docs, target) ==> ReachedAll(ts, docs, target)
  {
    hide IsValid, DocId;
  }

  lemma TogetherMax(ts: seq<Isr>, docs: seq<Document>, target: int, maxDoc: int)
    requires exists t :: t in ts && maxDoc == DocId(t, docs)
    ensures Together(ts, docs, target) ==> maxDoc == DocId(ts[0], docs) && Together(ts, docs, maxDoc)
  {
    hide IsValid, DocId;
  }

  lemma AllOnTogether(ts: seq<Isr>, docs: seq<Document>, target: int, d: int)
    ensures ts != [] && AllOn(ts, docs, d) && target <= d ==> Together(ts, docs, target) && DocId(ts[0], docs) == d
  {
    hide IsValid, DocId;
    assert ts != [] ==> ts[0] in ts;
  }

  lemma AllOf(ts: seq<Isr>, docs: seq<Document>, target: int)
    ensures ReachedAll(ts[..0], docs, target)
  {
  }

  lemma PartOfAll(ts: seq<Isr>, i: nat)
    requires i < |ts|
    ensures Repr(ts[i]) <= ReprAll(ts)
  {
    hide Repr;
  }

  // so that moving one child leaves the others as they were
  lemma OthersAreApart(ts: seq<Isr>, i: nat)
    requires Apart(ts) && i < |ts|
    ensures forall j :: 0 <= j < |ts| && j != i ==> Repr(ts[j]) !! Repr(ts[i])
    ensures forall j :: 0 <= j < |ts| ==> Repr(ts[j]) <= ReprAll(ts)
  {
    hide Repr;
  }

  // a tree whose own match is yet to be found: the children are in order
  ghost predicate Ready(t: Isr, docs: seq<Document>)
    reads Repr(t)
  {
    match t
    case AndIsr(children, at) =>
      && {at, at.docs} !! ReprAll(children)
      && Apart(children) && GoodAll(children, docs) && FreshAll(children, docs)
      && AtDocs(at, docs)
    case OrIsr(children, min) =>
      && min !in ReprAll(children)
      && Apart(children) && GoodAll(children, docs)
    case ContainerIsr(contained, excluded, at) =>
      && {at, at.docs} !! ReprAll(contained) !! ReprAll(excluded)
      && Apart(contained) && GoodAll(contained, docs)
      && Apart(excluded) && GoodAll(excluded, docs)
      && FreshAll(contained, docs) && Guarded(contained, excluded, docs)
      && AtDocs(at, docs)
    case _ => true
  }

  lemma GoodIsReady(t: Isr, docs: seq<Document>)
    requires Good(t, docs)
    ensures Ready(t, docs)
  {
    hide Repr, ReprAll, Apart, Sits, AtDocs;
  }

  // the emission of a match on a document where all children are
  method Settle(ts: seq<Isr>, at: DocMatch, ghost docs: seq<Document>, doc: int)
    requires GoodAll(ts, docs) && ts != [] && Start(docs, |docs|) <= INT_MAX
    requires AllOn(ts, docs, doc)
    requires at !in ReprAll(ts)
    modifies at
    ensures GoodAll(ts, docs)
    ensures at.valid && at.currentDoc == doc && Coincide(ts, docs, at)
  {
    hide Good, Start, End, DocId, IsValid, Repr, ReprAll, SpanIs;
    Exist(ReprAll(ts));
    ReprsArePart(ts);
    var s, e := SpanOf(ts, docs);
    at.currentDoc, at.currentStart, at.currentEnd, at.valid := doc, s, e, true;
  }

  // ---- ISRAnd::findNext

  // the conjunction stops at a document of its own from minDoc on, the first one when the
  // children have skipped nothing from there on
  method FindNextAnd(t: Isr, ix: Index, ghost docs: seq<Document>, minDoc: int) returns (ok: bool)
    requires HasRanges(ix, docs) && t.AndIsr? && Ready(t, docs) && 0 <= minDoc <= |docs|
    modifies t.at, if Together(t.children, docs, minDoc) then {} else ReprAll(t.children)
    ensures Good(t, docs) && ok == t.at.valid
    ensures old(SeenAll(t.children, docs, Start(docs, minDoc))) ==> Seen(t, docs, Start(docs, minDoc))
    ensures ok ==> minDoc <= t.at.currentDoc
    ensures old(Together(t.children, docs, minDoc)) ==> ok && t.at.currentDoc == old(DocId(t.children[0], docs))
    decreases t, 2
  {
    hide Good, HasRanges, Seen, SeenAll, Fresh, Sat, SatAll, NoneIn, Coincide, Start, DocId, ISREndDoc.Valid, ReprAll,
         Apart, AllOn, NotBefore;
    Exist(Repr(t));
    assert Start(docs, |docs|) <= INT_MAX by { RangesFit(ix, docs); }
    ghost var seen := SeenAll(t.children, docs, Start(docs, minDoc));
    if |t.children| == 0 {
      t.at.valid := false;
      NothingForNoChildren(t.children, docs, minDoc);
      NoMatchAnd(t, docs, minDoc);
      return false;
    }
    NotBeforeFirst(t.children, docs);
    var doc := Converge(t.children, ix, docs, minDoc, 0, seen);
    if doc < 0 {
      t.at.valid := false;
      NoMatchAnd(t, docs, minDoc);
      return false;
    }
    Exist(Repr(t));
    Settle(t.children, t.at, docs, doc);
    MatchAnd(t, docs, minDoc);
    return true;
  }

  lemma SeenAllIsFresh(ts: seq<Isr>, docs: seq<Document>, m: nat)
    requires GoodAll(ts, docs) && m <= |docs| && SeenAll(ts, docs, Start(docs, m)) && NotBefore(ts, docs, m)
    ensures FreshAll(ts, docs)
  {
    hide Good, Seen, Start, DocId, IsValid, Fresh, Repr, ReprAll;
    forall t | t in ts ensures Fresh(t, docs) {
      SeenIsFresh(t, docs, m);
    }
  }

  lemma GuardedFrom(contained: seq<Isr>, excluded: seq<Isr>, docs: seq<Document>, m: nat)
    requires m <= |docs| && NotBefore(contained, docs, m) && SeenAll(excluded, docs, Start(docs, m))
    ensures Guarded(contained, excluded, docs)
  {
  }

  lemma NotBeforeFirst(ts: seq<Isr>, docs: seq<Document>)
    requires GoodAll(ts, docs)
    ensures NotBefore(ts, docs, 0)
  {
    hide Good, DocId, IsValid, Start, Repr, ReprAll;
    forall t | t in ts && IsValid(t) ensures 0 <= DocId(t, docs) {
      SpanFits(t, docs);
    }
  }

  lemma NothingForNoChildren(ts: seq<Isr>, docs: seq<Document>, minDoc: int)
    requires ts == []
    ensures NoneIn(ts, docs, minDoc, |docs|)
  {
  }

  lemma RangesFit(ix: Index, docs: seq<Document>)
    requires HasRanges(ix, docs)
    ensures Start(docs, |docs|) <= INT_MAX
  {
  }

  lemma NoMatchAnd(t: Isr, docs: seq<Document>, minDoc: int)
    requires t.AndIsr? && Ready(t, docs) && 0 <= minDoc <= |docs| && !t.at.valid
    ensures Good(t, docs)
    ensures NoneIn(t.children, docs, minDoc, |docs|) ==> Seen(t, docs, Start(docs, minDoc))
  {
    hide Start, End, ISREndDoc.Valid, ReprAll, Apart, SeenAll, Fresh;
    if NoneIn(t.children, docs, minDoc, |docs|) {
      forall x | 0 <= x < |docs| && Start(docs, minDoc) <= Start(docs, x) ensures !Sat(t, docs[x]) {
        StartOrder(docs, minDoc, x);
        assert !SatAll(t.children, docs[x]);
      }
      assert SeenDocs(t, docs, Start(docs, minDoc));
      ConjunctionSeen(t, docs, Start(docs, minDoc));
    }
  }

  // children that coincide on a document give a span within it
  lemma CoincideSpan(ts: seq<Isr>, docs: seq<Document>, at: DocMatch)
    requires GoodAll(ts, docs) && Coincide(ts, docs, at)
    ensures 0 <= at.currentDoc < |docs|
    ensures Start(docs, at.currentDoc) <= at.currentStart <= at.currentEnd <= End(docs, at.currentDoc)
  {
    hide Good, Start, End, DocId, Repr, ReprAll;
    forall t | t in ts
      ensures && 0 <= DocId(t, docs) < |docs|
              && Start(docs, DocId(t, docs)) <= GetStartLocation(t) <= GetEndLocation(t) <= End(docs, DocId(t, docs))
    {
      SpanFits(t, docs);
    }
  }

  lemma MatchAnd(t: Isr, docs: seq<Document>, minDoc: int)
    requires t.AndIsr? && Ready(t, docs) && 0 <= minDoc <= t.at.currentDoc < |docs|
    requires SatAll(t.children, docs[t.at.currentDoc]) && Coincide(t.children, docs, t.at) && t.at.valid
    ensures Good(t, docs)
    ensures NoneIn(t.children, docs, minDoc, t.at.currentDoc) ==> Seen(t, docs, Start(docs, minDoc))
  {
    hide Start, End, ISREndDoc.Valid, ReprAll, Apart, Coincide, SeenAll, Fresh;
    CoincideSpan(t.children, docs, t.at);
    if NoneIn(t.children, docs, minDoc, t.at.currentDoc) {
      forall x | 0 <= x < |docs| && Start(docs, minDoc) <= Start(docs, x) && Sat(t, docs[x])
        ensures t.at.currentDoc <= x
      {
        StartOrder(docs, minDoc, x);
        assert SatAll(t.children, docs[x]);
      }
      assert SeenDocs(t, docs, Start(docs, minDoc));
      ConjunctionSeen(t, docs, Start(docs, minDoc));
    }
  }

  // ---- ISRContainer::anyExcludedIn and findNext

  method ExcludedIn(x: Isr, ix: Index, ghost docs: seq<Document>, docId: int) returns (hit: bool)
    requires HasRanges(ix, docs) && Good(x, docs) && 0 <= docId < |docs|
    requires Seen(x, docs, Start(docs, docId))
    modifies Repr(x)
    ensures Good(x, docs) && Seen(x, docs, Start(docs, docId))
    ensures hit <==> Sat(x, docs[docId])
    decreases x, 6
  {
    hide Good, HasRanges, Sat, DocId, Start;
    Exist(Repr(x));
    GoodSits(x, docs);
    if !IsValid(x) {
      return false;
    }
    var xd := GetCurrentDocId(x, ix, docs);
    if xd < docId {
      var ok := SkipToDoc(x, ix, docs, docId);
      if !ok {
        return false;
      }
      GoodSits(x, docs);
      Exist(Repr(x));
      xd := GetCurrentDocId(x, ix, docs);
    }
    return xd == docId;
  }

  method ExcludedAt(xs: seq<Isr>, i: nat, ix: Index, ghost docs: seq<Document>, docId: int) returns (hit: bool)
    requires HasRanges(ix, docs) && Apart(xs) && GoodAll(xs, docs) && 0 <= docId < |docs| && i < |xs|
    requires SeenAll(xs, docs, Start(docs, docId))
    modifies Repr(xs[i])
    ensures GoodAll(xs, docs) && SeenAll(xs, docs, Start(docs, docId))
    ensures hit <==> Sat(xs[i], docs[docId])
    decreases xs, 0
  {
    hide Good, HasRanges, Seen, Sat, DocId, Start, IsValid, Repr, ReprAll, Apart;
    Exist(ReprAll(xs));
    OthersAreApart(xs, i);
    hit := ExcludedIn(xs[i], ix, docs, docId);
  }

  method AnyExcludedIn(xs: seq<Isr>, ix: Index, ghost docs: seq<Document>, docId: int) returns (any: bool)
    requires HasRanges(ix, docs) && Apart(xs) && GoodAll(xs, docs) && 0 <= docId < |docs|
    requires SeenAll(xs, docs, Start(docs, docId))
    modifies ReprAll(xs)
    ensures GoodAll(xs, docs) && SeenAll(xs, docs, Start(docs, docId))
    ensures any <==> exists x :: x in xs && Sat(x, docs[docId])
    decreases xs, 1
  {
    hide *;
    for i := 0 to |xs|
      invariant GoodAll(xs, docs) && SeenAll(xs, docs, Start(docs, docId))
      invariant forall j :: 0 <= j < i ==> !Sat(xs[j], docs[docId])
    {
      PartOfAll(xs, i);
      var hit := ExcludedAt(xs, i, ix, docs, docId);
      if hit {
        return true;
      }
    }
    return false;
  }

  ghost predicate NoMatchIn(t: Isr, docs: seq<Document>, lo: int, hi: int) {
    forall x :: 0 <= x < |docs| && lo <= x < hi ==> !Sat(t, docs[x])
  }

  // likewise for a container, whose documents no excluded child has
  method FindNextContainer(t: Isr, ix: Index, ghost docs: seq<Document>, minDoc: int) returns (ok: bool)
    requires HasRanges(ix, docs) && t.ContainerIsr? && Ready(t, docs) && 0 <= minDoc <= |docs|
    modifies t.at, if IsAlreadyOn(t, docs, minDoc) then {} else ReprAll(t.contained), ReprAll(t.excluded)
    ensures Good(t, docs) && ok == t.at.valid
    ensures old(SeenAll(t.contained, docs, Start(docs, minDoc))) ==> Seen(t, docs, Start(docs, minDoc))
    ensures ok ==> minDoc <= t.at.currentDoc
    ensures old(IsAlreadyOn(t, docs, minDoc)) ==> ok && t.at.currentDoc == old(DocId(t.contained[0], docs))
    decreases t, 2
  {
    hide Good, HasRanges, Seen, Fresh, Sat, SatAll, NoneIn, NoMatchIn, Coincide, Start, End, DocId, ISREndDoc.Valid,
         ReprAll, Apart, GoodAll, SeenAll, AllOn, Together, NotBefore, IsAlreadyOn, FreshAll, Guarded;
    assert Start(docs, |docs|) <= INT_MAX by { RangesFit(ix, docs); }
    ghost var seen := SeenAll(t.contained, docs, Start(docs, minDoc));
    AlreadyOnIs(t, docs, minDoc);
    if |t.contained| == 0 {
      t.at.valid := false;
      NothingForNoChildren(t.contained, docs, minDoc);
      NoMatchYet(t, docs, minDoc);
      NoMatchContainer(t, docs, minDoc, minDoc);
      return false;
    }
    var target := minDoc;
    NoMatchYet(t, docs, minDoc);
    while true
      invariant minDoc <= target <= |docs|
      invariant Ready(t, docs)
      invariant seen ==> SeenAll(t.contained, docs, Start(docs, target)) && NoMatchIn(t, docs, minDoc, target)
      invariant old(IsAlreadyOn(t, docs, minDoc)) ==>
                  target == minDoc && IsAlreadyOn(t, docs, minDoc)
                  && DocId(t.contained[0], docs) == old(DocId(t.contained[0], docs))
      decreases |docs| - target
    {
      Exist(Repr(t));
      AlreadyOnIs(t, docs, target);
      var doc, blocked := Candidate(t, ix, docs, target, seen);
      if doc < 0 {
        t.at.valid := false;
        NoMatchContainer(t, docs, minDoc, target);
        return false;
      }
      CandidateFits(t, docs, minDoc, target, doc, blocked);
      if !blocked {
        Exist(Repr(t));
        Settle(t.contained, t.at, docs, doc);
        MatchContainer(t, docs, minDoc);
        return true;
      }
      SeenAllLater(t.contained, docs, doc);
      target := doc + 1;
    }
  }

  // every contained child is on one document from d on, and no excluded one has it
  ghost predicate IsAlreadyOn(t: Isr, docs: seq<Document>, d: int)
    requires t.ContainerIsr?
    reads ReprAll(t.contained)
  {
    && Together(t.contained, docs, d)
    && 0 <= DocId(t.contained[0], docs) < |docs|
    && Sat(t, docs[DocId(t.contained[0], docs)])
  }

  lemma AlreadyOnIs(t: Isr, docs: seq<Document>, d: int)
    requires t.ContainerIsr?
    ensures IsAlreadyOn(t, docs, d) ==>
              && Together(t.contained, docs, d) && t.contained != [] && 0 <= DocId(t.contained[0], docs) < |docs|
              && !(exists x :: x in t.excluded && Sat(x, docs[DocId(t.contained[0], docs)]))
  {
    hide AllOn, DocId;
  }

  // one round of findNext: the next document of all contained children, and whether
  // an excluded child blocks it
  method Candidate(t: Isr, ix: Index, ghost docs: seq<Document>, target: int, ghost seen: bool)
    returns (doc: int, blocked: bool)
    requires HasRanges(ix, docs) && t.ContainerIsr? && Ready(t, docs) && 0 <= target <= |docs| && t.contained != []
    requires seen ==> SeenAll(t.contained, docs, Start(docs, target))
    modifies if Together(t.contained, docs, target) then {} else ReprAll(t.contained), ReprAll(t.excluded)
    ensures Ready(t, docs)
    ensures old(Together(t.contained, docs, target)) ==> doc == old(DocId(t.contained[0], docs))
    ensures doc == -1 || target <= doc < |docs|
    ensures seen && doc == -1 ==> NoneIn(t.contained, docs, target, |docs|)
    ensures seen && doc != -1 ==> NoneIn(t.contained, docs, target, doc)
    ensures doc != -1 ==>
              && SatAll(t.contained, docs[doc])
              && SeenAll(t.contained, docs, Start(docs, doc))
              && AllOn(t.contained, docs, doc)
              && (blocked <==> exists x :: x in t.excluded && Sat(x, docs[doc]))
    decreases t, 1
  {
    hide Good, HasRanges, Seen, SeenAll, Fresh, FreshAll, Sat, SatAll, NoneIn, Start, DocId, ISREndDoc.Valid, ReprAll,
         Apart, IsValid, GoodAll, NotBefore, Together, AllOn;
    Exist(Repr(t));
    ReprsArePart(t.contained);
    ghost var m: nat :| m <= |docs| && NotBefore(t.contained, docs, m) && SeenAll(t.excluded, docs, Start(docs, m));
    doc := Converge(t.contained, ix, docs, target, m, seen);
    if doc < 0 {
      return -1, false;
    }
    NotBeforeOn(t.contained, docs, m, doc);
    StartOrder(docs, m, doc);
    SeenAllFrom(t.excluded, docs, Start(docs, m), Start(docs, doc));
    Exist(Repr(t));
    blocked := AnyExcludedIn(t.excluded, ix, docs, doc);
  }

  lemma NotBeforeOn(ts: seq<Isr>, docs: seq<Document>, m: int, d: int)
    requires ts != [] && NotBefore(ts, docs, m) && AllOn(ts, docs, d)
    ensures m <= d && NotBefore(ts, docs, d)
  {
    hide IsValid, DocId;
    assert ts[0] in ts;
  }

  lemma SeenAllFrom(ts: seq<Isr>, docs: seq<Document>, a: int, b: int)
    requires SeenAll(ts, docs, a) && a <= b
    ensures SeenAll(ts, docs, b)
  {
    hide Seen, Repr, ReprAll;
    forall t | t in ts ensures Seen(t, docs, b) {
      SeenLater(t, docs, a, b);
    }
  }

  lemma SeenAllLater(ts: seq<Isr>, docs: seq<Document>, d: nat)
    requires d < |docs| && SeenAll(ts, docs, Start(docs, d))
    ensures SeenAll(ts, docs, Start(docs, d + 1))
    ensures SeenAll(ts, docs, End(docs, d) + 1)
  {
    hide Start, End, SeenAll;
    EndIsBeforeNext(docs, d);
    StartOrder(docs, d, d + 1);
    SeenAllFrom(ts, docs, Start(docs, d), Start(docs, d + 1));
  }

  lemma NoMatchYet(t: Isr, docs: seq<Document>, minDoc: int)
    ensures NoMatchIn(t, docs, minDoc, minDoc)
  {
  }

  lemma CandidateFits(t: Isr, docs: seq<Document>, minDoc: int, target: int, doc: int, blocked: bool)
    requires t.ContainerIsr? && 0 <= minDoc <= target <= doc < |docs|
    requires SatAll(t.contained, docs[doc])
    requires blocked <==> exists x :: x in t.excluded && Sat(x, docs[doc])
    ensures NoMatchIn(t, docs, minDoc, target) && NoneIn(t.contained, docs, target, doc) ==>
              NoMatchIn(t, docs, minDoc, doc) && (blocked ==> NoMatchIn(t, docs, minDoc, doc + 1))
    ensures !blocked ==> Sat(t, docs[doc])
  {
    if NoMatchIn(t, docs, minDoc, target) && NoneIn(t.contained, docs, target, doc) {
      forall x | minDoc <= x < doc ensures !Sat(t, docs[x]) {
        assert x >= target ==> !SatAll(t.contained, docs[x]);
      }
    }
  }

  lemma NoMatchContainer(t: Isr, docs: seq<Document>, minDoc: int, target: int)
    requires t.ContainerIsr? && Ready(t, docs) && 0 <= minDoc <= target <= |docs| && !t.at.valid
    ensures Good(t, docs)
    ensures NoMatchIn(t, docs, minDoc, target) && NoneIn(t.contained, docs, target, |docs|) ==>
              Seen(t, docs, Start(docs, minDoc))
  {
    hide Start, End, ISREndDoc.Valid, ReprAll, Apart, SeenAll, Fresh, NotBefore;
    if NoMatchIn(t, docs, minDoc, target) && NoneIn(t.contained, docs, target, |docs|) {
      forall x | 0 <= x < |docs| && Start(docs, minDoc) <= Start(docs, x) ensures !Sat(t, docs[x]) {
        StartOrder(docs, minDoc, x);
        assert x >= target ==> !SatAll(t.contained, docs[x]);
      }
      assert SeenDocs(t, docs, Start(docs, minDoc));
      ConjunctionSeen(t, docs, Start(docs, minDoc));
    }
  }

  lemma MatchContainer(t: Isr, docs: seq<Document>, minDoc: int)
    requires t.ContainerIsr? && Ready(t, docs) && 0 <= minDoc <= t.at.currentDoc < |docs|
    requires Sat(t, docs[t.at.currentDoc]) && Coincide(t.contained, docs, t.at) && t.at.valid
    ensures Good(t, docs)
    ensures NoMatchIn(t, docs, minDoc, t.at.currentDoc) ==> Seen(t, docs, Start(docs, minDoc))
  {
    hide Sat, Start, End, ISREndDoc.Valid, ReprAll, Apart, Coincide, SeenAll, Fresh, NotBefore;
    CoincideSpan(t.contained, docs, t.at);
    if NoMatchIn(t, docs, minDoc, t.at.currentDoc) {
      forall x | 0 <= x < |docs| && Start(docs, minDoc) <= Start(docs, x) && Sat(t, docs[x])
        ensures t.at.currentDoc <= x
      {
        StartOrder(docs, minDoc, x);
      }
      assert SeenDocs(t, docs, Start(docs, minDoc));
      ConjunctionSeen(t, docs, Start(docs, minDoc));
    }
  }

  // ---- ISROr

  method PickMin(ts: seq<Isr>, min: MinMatch, ghost docs: seq<Document>)
    requires GoodAll(ts, docs) && min !in ReprAll(ts) && Start(docs, |docs|) <= INT_MAX
    modifies min
    ensures GoodAll(ts, docs)
    ensures min.valid <==> exists t :: t in ts && IsValid(t)
    ensures min.valid ==> PicksMin(ts, min)
  {
    hide Good, GetStartLocation, GetEndLocation, DocId, Start, End, IsValid, Repr, ReprAll;
    Exist(ReprAll(ts));
    ReprsArePart(ts);
    min.currentChild := -1;
    var bestStart := INT_MAX;
    for i := 0 to |ts|
      invariant GoodAll(ts, docs)
      invariant -1 <= min.currentChild < i
      invariant min.currentChild < 0 ==> bestStart == INT_MAX && forall j :: 0 <= j < i ==> !IsValid(ts[j])
      invariant min.currentChild >= 0 ==>
                  && IsValid(ts[min.currentChild])
                  && bestStart == GetStartLocation(ts[min.currentChild])
                  && (forall j :: 0 <= j < i && IsValid(ts[j]) ==> bestStart <= GetStartLocation(ts[j]))
                  && (forall j :: 0 <= j < min.currentChild && IsValid(ts[j]) ==> bestStart < GetStartLocation(ts[j]))
    {
      if IsValid(ts[i]) {
        assert ts[i] in ts;
        SpanFits(ts[i], docs);
        var s := GetStartLocation(ts[i]);
        if s < bestStart {
          bestStart := s;
          min.currentChild := i;
        }
      }
    }
    if min.currentChild < 0 {
      min.valid := false;
      return;
    }
    min.valid := true;
    min.currentStart := GetStartLocation(ts[min.currentChild]);
    min.currentEnd := GetEndLocation(ts[min.currentChild]);
    assert ts[min.currentChild] in ts && IsValid(ts[min.currentChild]);
  }

  lemma PickedSits(t: Isr, docs: seq<Document>) returns (c: Isr)
    requires t.OrIsr? && GoodAll(t.children, docs) && t.min.valid && PicksMin(t.children, t.min)
    ensures c in t.children && IsValid(c) && GetStartLocation(t) == GetStartLocation(c)
    ensures DocId(t, docs) == DocId(c, docs)
    ensures Sits(t, docs)
  {
    hide Good, Start, End, ReprAll, Repr, Apart, DocumentAtOrAfter;
    c := t.children[t.min.currentChild];
    assert c in t.children;
    SpanFits(c, docs);
    GoodSits(c, docs);
    DocIdIs(docs, GetStartLocation(t), DocId(c, docs));
    assert Sat(t, docs[DocId(t, docs)]);
  }

  // whatever moved the children to the location, picking the least start restores the
  // invariant and has skipped nothing
  lemma OrIsGood(t: Isr, docs: seq<Document>, location: int)
    requires t.OrIsr? && Ready(t, docs) && SeenAll(t.children, docs, location)
    requires t.min.valid <==> exists c :: c in t.children && IsValid(c)
    requires t.min.valid ==> PicksMin(t.children, t.min)
    requires forall c :: c in t.children && IsValid(c) ==>
               0 <= DocId(c, docs) < |docs| && location <= End(docs, DocId(c, docs)) + 1
    requires IsPlain(t) && t.min.valid ==> LowAll(t.children, docs, t.min.currentStart + 1)
    ensures Good(t, docs) && Seen(t, docs, location)
    ensures t.min.valid ==>
              && 0 <= DocId(t, docs) < |docs|
              && exists c :: c in t.children && IsValid(c) && DocId(t, docs) == DocId(c, docs)
  {
    hide Good, GoodAll, Start, End, ReprAll, Repr, Apart, DocumentAtOrAfter, DocId, Seen, SeenAll, LowAll, IsPlain,
         Sat, Sits, PicksMin, GetStartLocation;
    OrHasSeen(t, docs, location);
    if t.min.valid {
      var c := PickedSits(t, docs);
      SeenAllFrom(t.children, docs, location, End(docs, DocId(t, docs)) + 1);
    } else {
      NothingSits(t, docs);
    }
    OrFromParts(t, docs);
  }

  lemma NothingSits(t: Isr, docs: seq<Document>)
    requires !IsValid(t)
    ensures Sits(t, docs)
  {
  }

  lemma OrFromParts(t: Isr, docs: seq<Document>)
    requires t.OrIsr? && Ready(t, docs) && Sits(t, docs)
    requires !t.min.valid ==> forall c :: c in t.children ==> !IsValid(c)
    requires t.min.valid ==>
               && PicksMin(t.children, t.min)
               && 0 <= DocId(t, docs) < |docs|
               && SeenAll(t.children, docs, End(docs, DocId(t, docs)) + 1)
               && (IsPlain(t) ==> LowAll(t.children, docs, t.min.currentStart + 1))
    ensures Good(t, docs)
  {
    hide Start, End, ReprAll, Repr, Apart, DocId, SeenAll, LowAll, IsPlain, Sits, PicksMin;
  }

  lemma OrHasSeen(t: Isr, docs: seq<Document>, location: int)
    requires t.OrIsr? && GoodAll(t.children, docs) && SeenAll(t.children, docs, location)
    requires t.min.valid <==> exists c :: c in t.children && IsValid(c)
    requires t.min.valid ==> PicksMin(t.children, t.min)
    ensures Seen(t, docs, location)
  {
    hide Good, Start, End, ReprAll, Repr, DocumentAtOrAfter, DocId;
    forall x | 0 <= x < |docs| && location <= Start(docs, x) && Sat(t, docs[x])
      ensures t.min.valid && DocId(t, docs) <= x
    {
      var c :| c in t.children && Sat(c, docs[x]);
      assert Seen(c, docs, location);
      SpanFits(c, docs);
      EarlierDoc(docs, DocId(c, docs), x);
      var picked := PickedSits(t, docs);
      DocumentOrder(docs, DocId(t, docs), x, GetStartLocation(t));
    }
  }

  // picking the least start has skipped no match of the children either
  lemma OrIsLow(t: Isr, docs: seq<Document>, location: int)
    requires t.OrIsr? && LowAll(t.children, docs, location)
    requires t.min.valid <==> exists c :: c in t.children && IsValid(c)
    requires t.min.valid ==> PicksMin(t.children, t.min)
    ensures Low(t, docs, location)
  {
    hide Repr, ReprAll;
    forall p | location <= p && StartsAt(t, docs, p) ensures t.min.valid && t.min.currentStart <= p {
      var c :| c in t.children && StartsAt(c, docs, p);
      assert Low(c, docs, location);
    }
  }

  lemma EarlierDoc(docs: seq<Document>, d: nat, x: nat)
    requires d <= x < |docs|
    ensures End(docs, d) <= End(docs, x)
  {
    hide Start;
    if d < x {
      RangesAreDisjoint(docs, d, x);
      RangesAreDisjoint(docs, x, x + 1);
    }
  }

  // from a document before the target: the first match of the tree from its start on, if any. A
  // composite on the target or past it stays on its match; a word or a phrase goes back to its
  // first match from there on; and only a conjunction comes back from exhaustion
  method SkipToDoc(t: Isr, ix: Index, ghost docs: seq<Document>, target: int) returns (ok: bool)
    requires HasRanges(ix, docs) && Good(t, docs)
    modifies if 0 <= target < |docs| then Repr(t) else {}
    ensures Good(t, docs)
    ensures !(0 <= target < |docs|) ==> !ok
    ensures 0 <= target < |docs| ==> ok == IsValid(t)
    ensures 0 <= target < |docs| && old(IsValid(t) && (IsLeaf(t) || DocId(t, docs) < target)) ==>
              && Seen(t, docs, Start(docs, target))
              && IsFirstMatch(t, docs, Start(docs, target))
              && (ok ==> target <= DocId(t, docs))
    ensures 0 <= target < |docs| && !IsLeaf(t) && old(IsValid(t) && target <= DocId(t, docs)) ==>
              ok && DocId(t, docs) == old(DocId(t, docs)) && GetStartLocation(t) == old(GetStartLocation(t))
    ensures !IsConjunction(t) && !old(IsValid(t)) ==> !ok
    ensures IsConjunction(t) && ok ==> target <= DocId(t, docs)
    decreases t, 5
  {
    hide Good, Sat, Seen, Low, IsPlain, IsFirstMatch, ConjunctionLanded, DocumentAtOrAfter, DocId, Landed;
    GoodSits(t, docs);
    if target < 0 || target >= |ix.ranges| {
      return false;
    }
    assert ServesRange(ix, docs, target);
    DocumentAtStart(docs, target);
    PlaceOf(t, docs, target);
    ok := Seek(t, ix, docs, ix.ranges[target].start);
    LandedAtTarget(t, docs, target);
  }

  predicate IsLeaf(t: Isr) { t.WordIsr? || t.PhraseIsr? }

  predicate IsConjunction(t: Isr) { t.AndIsr? || t.ContainerIsr? }

  lemma DocumentAtStart(docs: seq<Document>, d: nat)
    requires d < |docs|
    ensures DocumentAtOrAfter(docs, 0, Start(docs, d)) == d
  {
    hide Start, DocumentAtOrAfter;
    DocIdIs(docs, Start(docs, d), d);
  }

  lemma PlaceOf(t: Isr, docs: seq<Document>, d: nat)
    requires Good(t, docs) && d < |docs|
    ensures IsValid(t) ==> (GetStartLocation(t) < Start(docs, d) <==> DocId(t, docs) < d)
  {
    hide Good, Start, End, DocId, Repr;
    if IsValid(t) {
      SpanFits(t, docs);
      if DocId(t, docs) < d {
        RangesAreDisjoint(docs, DocId(t, docs), d);
      } else {
        StartOrder(docs, d, DocId(t, docs));
      }
    }
  }

  lemma LandedAtTarget(t: Isr, docs: seq<Document>, d: nat)
    requires Good(t, docs) && d < |docs|
    ensures Landed(t, docs, Start(docs, d)) ==>
              && Seen(t, docs, Start(docs, d)) && IsFirstMatch(t, docs, Start(docs, d))
              && (IsValid(t) ==> d <= DocId(t, docs))
  {
    hide Good, Seen, Start, DocId, Repr, IsFirstMatch;
    if Landed(t, docs, Start(docs, d)) {
      if IsValid(t) {
        DocumentOrder(docs, d, DocId(t, docs), Start(docs, d));
      }
      SeenIsFirst(t, docs, d);
    }
  }

  method GreatestDocId(ts: seq<Isr>, ix: Index, ghost docs: seq<Document>, target: int) returns (maxDoc: int)
    requires HasRanges(ix, docs) && GoodAll(ts, docs) && ts != [] && ReachedAll(ts, docs, target)
    ensures forall t :: t in ts ==> DocId(t, docs) <= maxDoc
    ensures exists t :: t in ts && maxDoc == DocId(t, docs)
  {
    hide Good, HasRanges, DocId, Start, IsValid, Repr, ReprAll;
    Exist(ReprAll(ts));
    ReprsArePart(ts);
    maxDoc := GetCurrentDocId(ts[0], ix, docs);
    for i := 1 to |ts|
      invariant forall j :: 0 <= j < i ==> DocId(ts[j], docs) <= maxDoc
      invariant exists j :: 0 <= j < i && maxDoc == DocId(ts[j], docs)
    {
      var d := GetCurrentDocId(ts[i], ix, docs);
      if d > maxDoc {
        maxDoc := d;
      }
    }
  }

  lemma ReprsArePart(ts: seq<Isr>)
    ensures forall t :: t in ts ==> Repr(t) <= ReprAll(ts)
  {
    hide Repr;
  }

  // the loop of ISRAnd::findNext and ISRContainer::converge: the least document from
  // minDoc on that every child stands for, or -1
  method Converge(ts: seq<Isr>, ix: Index, ghost docs: seq<Document>, minDoc: int, ghost m: int, ghost seen: bool)
    returns (doc: int)
    requires HasRanges(ix, docs) && Apart(ts) && GoodAll(ts, docs) && 0 <= minDoc <= |docs| && ts != []
    requires FreshAll(ts, docs) && NotBefore(ts, docs, m)
    requires seen ==> SeenAll(ts, docs, Start(docs, minDoc))
    modifies if Together(ts, docs, minDoc) then {} else ReprAll(ts)
    ensures GoodAll(ts, docs) && FreshAll(ts, docs) && NotBefore(ts, docs, m)
    ensures old(Together(ts, docs, minDoc)) ==> doc == old(DocId(ts[0], docs))
    ensures doc == -1 || minDoc <= doc < |docs|
    ensures seen && doc == -1 ==> NoneIn(ts, docs, minDoc, |docs|)
    ensures seen && doc != -1 ==> NoneIn(ts, docs, minDoc, doc)
    ensures doc != -1 ==> SatAll(ts, docs[doc]) && SeenAll(ts, docs, Start(docs, doc)) && AllOn(ts, docs, doc)
    decreases ts, 2
  {
    hide NoneIn, Good, HasRanges, Seen, SeenAll, Fresh, FreshAll, NotBefore, Together, Sat, DocId, Start, End,
         IsValid, Repr, ReprAll, Apart;
    var target := minDoc;
    NoneJoins(ts, docs, minDoc, minDoc, minDoc);
    while true
      invariant minDoc <= target <= |docs|
      invariant GoodAll(ts, docs) && FreshAll(ts, docs) && NotBefore(ts, docs, m)
      invariant seen ==> SeenAll(ts, docs, Start(docs, target)) && NoneIn(ts, docs, minDoc, target)
      invariant old(Together(ts, docs, minDoc)) ==>
                  Together(ts, docs, target) && DocId(ts[0], docs) == old(DocId(ts[0], docs))
      decreases |docs| - target
    {
      TogetherReached(ts, docs, target);
      Exist(ReprAll(ts) + Repr(ts[0]));
      var ok := AlignAll(ts, ix, docs, target, m, seen);
      if !ok {
        NoneJoins(ts, docs, minDoc, target, |docs|);
        return -1;
      }
      Exist(ReprAll(ts));
      var maxDoc := GreatestDocId(ts, ix, docs, target);
      AlignedSits(ts, docs, target, maxDoc);
      NoneJoins(ts, docs, minDoc, target, maxDoc);
      TogetherMax(ts, docs, target, maxDoc);
      if maxDoc == target {
        FreshOn(ts, docs, target);
        return target;
      }
      target := maxDoc;
    }
  }

  lemma NoneJoins(ts: seq<Isr>, docs: seq<Document>, a: int, b: int, c: int)
    ensures a == b ==> NoneIn(ts, docs, a, b)
    ensures NoneIn(ts, docs, a, b) && NoneIn(ts, docs, b, c) ==> NoneIn(ts, docs, a, c)
  {
    hide SatAll;
  }

  // the children are on documents in target .. maxDoc: nothing common before maxDoc
  lemma AlignedSits(ts: seq<Isr>, docs: seq<Document>, target: int, maxDoc: int)
    requires GoodAll(ts, docs) && ts != [] && 0 <= target <= |docs| && ReachedAll(ts, docs, target)
    requires forall t :: t in ts ==> DocId(t, docs) <= maxDoc
    requires exists t :: t in ts && maxDoc == DocId(t, docs)
    ensures target <= maxDoc < |docs|
    ensures maxDoc == target ==> SatAll(ts, docs[target]) && AllOn(ts, docs, target)
    ensures SeenAll(ts, docs, Start(docs, target)) ==>
              NoneIn(ts, docs, target, maxDoc) && SeenAll(ts, docs, Start(docs, maxDoc))
  {
    hide Good, Sat, DocId, Start, Repr, ReprAll, IsValid, SeenStarts;
    forall t | t in ts ensures Sits(t, docs) {
      GoodSits(t, docs);
    }
    StartOrder(docs, target, maxDoc);
    if SeenAll(ts, docs, Start(docs, target)) {
      SeenAllFrom(ts, docs, Start(docs, target), Start(docs, maxDoc));
      forall x | target <= x < maxDoc && x < |docs| ensures !SatAll(ts, docs[x]) {
        StartOrder(docs, target, x);
      }
    }
  }

  const INT_MIN := -0x8000_0000

  // the span of a match: least start and greatest end of the children's matches
  method SpanOf(ts: seq<Isr>, ghost docs: seq<Document>) returns (s: int, e: int)
    requires GoodAll(ts, docs) && ts != [] && Start(docs, |docs|) <= INT_MAX
    requires forall t :: t in ts ==> IsValid(t)
    ensures SpanIs(ts, s, e)
  {
    hide Good, DocId, Start, End, IsValid, Repr, ReprAll;
    Exist(ReprAll(ts));
    ReprsArePart(ts);
    s, e := INT_MAX, INT_MIN;
    for i := 0 to |ts|
      invariant i == 0 ==> s == INT_MAX && e == INT_MIN
      invariant forall j :: 0 <= j < i ==> s <= GetStartLocation(ts[j]) && GetEndLocation(ts[j]) <= e
      invariant i > 0 ==> exists j :: 0 <= j < i && s == GetStartLocation(ts[j])
      invariant i > 0 ==> exists j :: 0 <= j < i && e == GetEndLocation(ts[j])
    {
      assert ts[i] in ts;
      SpanFits(ts[i], docs);
      var start, end := GetStartLocation(ts[i]), GetEndLocation(ts[i]);
      s := if start < s then start else s;
      e := if end > e then end else e;
    }
  }

  lemma SpanFits(t: Isr, docs: seq<Document>)
    requires Good(t, docs) && IsValid(t)
    ensures 0 <= DocId(t, docs) < |docs|
    ensures Start(docs, DocId(t, docs)) <= GetStartLocation(t) <= GetEndLocation(t) <= End(docs, DocId(t, docs))
    ensures 0 <= GetStartLocation(t) <= GetEndLocation(t) < Start(docs, |docs|)
  {
    hide Good, Start, End, Repr;
    GoodSits(t, docs);
    RangesAreDisjoint(docs, DocId(t, docs), |docs|);
  }

  ghost predicate Landed(t: Isr, docs: seq<Document>, location: int)
    reads Repr(t)
  {
    && Seen(t, docs, location)
    && (IsValid(t) ==> 0 <= DocId(t, docs) < |docs| && location <= End(docs, DocId(t, docs)))
  }

  // a conjunction goes by the document that the location falls in: it stops at its first
  // document from there on
  ghost predicate ConjunctionLanded(t: Isr, docs: seq<Document>, location: int)
    reads Repr(t)
  {
    var d := DocumentAtOrAfter(docs, 0, location);
    Seen(t, docs, Start(docs, d)) && (IsValid(t) ==> d <= DocId(t, docs))
  }

  // Seek jumps forward, to the first document that the location allows and that the tree
  // stands for. Words, phrases and alternatives of them land on the first match that starts
  // at or after the location, every tree does at the start of a document, and a conjunction
  // lands on its first match from the start of the location's document on. Only a word or a
  // phrase goes back: a composite that starts at or after the location stays on its match, as
  // does a conjunction on the location's document or past it. What is exhausted stays so,
  // unless it is a conjunction
  method Seek(t: Isr, ix: Index, ghost docs: seq<Document>, location: int) returns (ok: bool)
    requires HasRanges(ix, docs) && Good(t, docs)
    modifies Repr(t)
    ensures Good(t, docs) && ok == IsValid(t)
    ensures old(IsValid(t) && (IsLeaf(t) || GetStartLocation(t) < location)) ==>
              && Landed(t, docs, location)
              && (IsPlain(t) || location == DocStart(docs, location) ==> IsFirstMatch(t, docs, location))
    ensures IsConjunction(t) && old(IsValid(t) && GetStartLocation(t) < location) ==>
              && ConjunctionLanded(t, docs, location) && IsFirstMatch(t, docs, DocStart(docs, location))
              && (ok ==> (location <= GetStartLocation(t) <==> !HasEarlyMatch(t, docs, location)))
    ensures !IsLeaf(t) && old(IsValid(t) && location <= GetStartLocation(t)) ==>
              ok && DocId(t, docs) == old(DocId(t, docs)) && GetStartLocation(t) == old(GetStartLocation(t))
    ensures IsConjunction(t) && old(IsValid(t) && DocumentAtOrAfter(docs, 0, location) <= DocId(t, docs)) ==>
              ok && DocId(t, docs) == old(DocId(t, docs)) && GetStartLocation(t) == old(GetStartLocation(t))
    ensures !IsConjunction(t) && !old(IsValid(t)) ==> !ok
    ensures IsConjunction(t) && ok ==> DocumentAtOrAfter(docs, 0, location) <= DocId(t, docs)
    decreases t, 4
  {
    hide Landed, IsFirstMatch, ConjunctionLanded, HasEarlyMatch, Seen, Sits, Start, End, DocumentAtOrAfter, Fresh,
         FreshAll, Guarded;
    match t {
      case WordIsr(word) => ok := SeekWord(word, docs, location);
      case PhraseIsr(phrase) => ok := SeekPhrase(phrase, docs, location);
      case AndIsr(_, _) => ok := SeekAnd(t, ix, docs, location);
      case OrIsr(_, _) => ok := SeekOr(t, ix, docs, location);
      case ContainerIsr(_, _, _) => ok := SeekContainer(t, ix, docs, location);
    }
    LandedIsFirst(t, docs, location);
    SeekIsExact(t, docs, location);
  }

  // a match may start before the location only inside the document that the location falls
  // in, and only in a tree with a conjunction
  lemma EarlyStart(t: Isr, docs: seq<Document>, location: int)
    requires Good(t, docs) && Landed(t, docs, location) && IsValid(t) && GetStartLocation(t) < location
    ensures var d := DocumentAtOrAfter(docs, 0, location);
            d < |docs| && DocId(t, docs) == d && Start(docs, d) < location
  {
    hide Good, Start, End, DocId, Repr, Seen, DocumentAtOrAfter;
    SpanFits(t, docs);
    DocIdIs(docs, location, DocId(t, docs));
  }

  // a match of the tree starts in the document of the location, before it
  ghost predicate HasEarlyMatch(t: Isr, docs: seq<Document>, location: int) {
    exists p :: DocStart(docs, location) <= p < location && StartsAt(t, docs, p)
  }

  // a conjunction goes to its first match in the document of the location or a later one, so it
  // keeps the promise of Seek exactly when it has no match before the location in that document
  lemma SeekIsExact(t: Isr, docs: seq<Document>, location: int)
    ensures IsFirstMatch(t, docs, DocStart(docs, location)) && IsValid(t) ==>
              (location <= GetStartLocation(t) <==> !HasEarlyMatch(t, docs, location))
  {
    hide StartsAt, Start, DocumentAtOrAfter;
  }

  // at the start of a document every tree keeps it
  lemma LandedIsFirst(t: Isr, docs: seq<Document>, location: int)
    requires Good(t, docs)
    ensures Landed(t, docs, location) && location == DocStart(docs, location) ==> IsFirstMatch(t, docs, location)
  {
    hide Good, Seen, Start, IsFirstMatch, DocId;
    if Landed(t, docs, location) && location == DocStart(docs, location) {
      SeenIsFirst(t, docs, DocumentAtOrAfter(docs, 0, location));
    }
  }

  lemma ConjunctionIsFirst(t: Isr, docs: seq<Document>, location: int)
    requires Good(t, docs)
    ensures ConjunctionLanded(t, docs, location) ==>
              Landed(t, docs, location) && IsFirstMatch(t, docs, DocStart(docs, location))
  {
    hide Good, Seen, Sits, Start, Landed, IsFirstMatch, DocId, DocumentAtOrAfter;
    if ConjunctionLanded(t, docs, location) {
      GoodSits(t, docs);
      LandedAtDocument(t, docs, location, DocumentAtOrAfter(docs, 0, location));
      SeenIsFirst(t, docs, DocumentAtOrAfter(docs, 0, location));
    }
  }

  method SeekWord(word: ISRWord, ghost docs: seq<Document>, location: int) returns (ok: bool)
    requires Good(WordIsr(word), docs)
    modifies word
    ensures Good(WordIsr(word), docs) && ok == word.IsValid()
    ensures old(word.IsValid()) ==>
              Landed(WordIsr(word), docs, location) && IsFirstMatch(WordIsr(word), docs, location)
    ensures !old(word.IsValid()) ==> !ok
  {
    hide Hits, Start, DocumentAtOrAfter, Decodes, Seen, Sat, End, Low, IsFirstMatch;
    ghost var valid := word.IsValid();
    ok := word.Seek(location);
    WordSits(word, docs);
    if valid {
      WordSeen(word, docs, 0, location, location);
      WordLow(word, docs, 0, location, location);
      LowIsFirst(WordIsr(word), docs, location);
    }
  }

  method SeekPhrase(phrase: ISRPhrase, ghost docs: seq<Document>, location: int) returns (ok: bool)
    requires Good(PhraseIsr(phrase), docs)
    modifies phrase, phrase.children
    ensures Good(PhraseIsr(phrase), docs) && ok == phrase.valid
    ensures old(phrase.valid) ==>
              Landed(PhraseIsr(phrase), docs, location) && IsFirstMatch(PhraseIsr(phrase), docs, location)
    ensures !old(phrase.valid) ==> !ok
  {
    hide ISRPhrase.Valid, NoPhraseIn, NoPhraseFrom, Start, End, DocumentAtOrAfter, Seen, Sat, Low, IsFirstMatch;
    ghost var valid := phrase.valid;
    ok := phrase.Seek(docs, location);
    PhraseSits(phrase, docs);
    if valid {
      PhraseSeen(phrase, docs, location);
      PhraseLow(phrase, docs, location);
      LowIsFirst(PhraseIsr(phrase), docs, location);
    }
  }

  // seeking to a location is seeking to the first document that does not end before it
  lemma LandedAtDocument(t: Isr, docs: seq<Document>, location: int, d: nat)
    requires d == DocumentAtOrAfter(docs, 0, location)
    requires Seen(t, docs, Start(docs, d)) && Sits(t, docs)
    requires IsValid(t) ==> d <= DocId(t, docs)
    ensures Landed(t, docs, location)
  {
    hide Start, Sat, DocId, Seen;
    forall x | 0 <= x < |docs| && location <= Start(docs, x) ensures Start(docs, d) <= Start(docs, x) {
      RangesAreDisjoint(docs, x, x + 1);
      assert !(0 <= x < d);
      StartOrder(docs, d, x);
    }
    SeenMoves(t, docs, Start(docs, d), location);
    if IsValid(t) {
      EarlierDoc(docs, d, DocId(t, docs));
    }
  }

  // where a valid conjunction stands to the document of a location
  lemma SeekPlace(t: Isr, docs: seq<Document>, location: int)
    requires Good(t, docs) && IsConjunction(t)
    ensures IsValid(t) ==> 0 <= DocId(t, docs) < |docs|
    ensures IsValid(t) && GetStartLocation(t) < location ==>
              SeenAll(Parts(t), docs, Start(docs, DocumentAtOrAfter(docs, 0, location)))
    ensures IsValid(t) && location <= GetStartLocation(t) ==> DocumentAtOrAfter(docs, 0, location) <= DocId(t, docs)
  {
    hide Start, DocId, Repr, ReprAll, Good, IsValid, DocumentAtOrAfter, SeenAll;
    var d := DocumentAtOrAfter(docs, 0, location);
    if IsValid(t) {
      SpanFits(t, docs);
      if GetStartLocation(t) < location {
        if d < |docs| {
          DocumentOrder(docs, DocId(t, docs), d, GetStartLocation(t));
        }
        ChildrenAreHere(t, docs, d);
      }
    }
  }

  method SeekAnd(t: Isr, ix: Index, ghost docs: seq<Document>, location: int) returns (ok: bool)
    requires HasRanges(ix, docs) && Good(t, docs) && t.AndIsr?
    modifies Repr(t)
    ensures Good(t, docs) && ok == IsValid(t)
    ensures ok ==> DocumentAtOrAfter(docs, 0, location) <= DocId(t, docs)
    ensures old(IsValid(t) && GetStartLocation(t) < location) ==>
              && Landed(t, docs, location) && ConjunctionLanded(t, docs, location)
              && IsFirstMatch(t, docs, DocStart(docs, location))
    ensures old(IsValid(t) && (location <= GetStartLocation(t) ||
                               DocumentAtOrAfter(docs, 0, location) <= DocId(t, docs))) ==>
              ok && DocId(t, docs) == old(DocId(t, docs)) && GetStartLocation(t) == old(GetStartLocation(t))
    decreases t, 3
  {
    hide IsFirstMatch, Landed, Good, HasRanges, Seen, SeenAll, Sat, Start, End, DocumentAtOrAfter, DocStart,
         ISREndDoc.Valid, ReprAll, Apart, GoodAll, AllOn, SpanIs, Fresh, FreshAll, Guarded, Together;
    SeekPlace(t, docs, location);
    GoodIsReady(t, docs);
    ghost var start, end := t.at.currentStart, t.at.currentEnd;
    OnOneDocument(t, docs, DocumentAtOrAfter(docs, 0, location));
    Exist(Repr(t));
    var found := t.at.docs.Seek(location);
    if !found {
      t.at.valid := false;
      NothingAfterLast(t.children, docs);
      NoMatchAnd(t, docs, |docs|);
      ok := false;
    } else {
      ok := FindNextAnd(t, ix, docs, t.at.docs.currentDoc);
      SameSpan(t, docs, start, end);
    }
    ConjunctionIsFirst(t, docs, location);
  }

  // the children of a valid conjunction are on its document, and its span is theirs
  lemma OnOneDocument(t: Isr, docs: seq<Document>, d: int)
    requires Good(t, docs) && IsConjunction(t)
    ensures IsValid(t) ==> SpanIs(Parts(t), t.at.currentStart, t.at.currentEnd)
    ensures IsValid(t) ==> Parts(t) != [] && Repr(Parts(t)[0]) <= ReprAll(Parts(t))
    ensures IsValid(t) && d <= DocId(t, docs) ==>
              Together(Parts(t), docs, d) && DocId(Parts(t)[0], docs) == DocId(t, docs)
    ensures IsValid(t) && d <= DocId(t, docs) && t.ContainerIsr? ==> IsAlreadyOn(t, docs, d)
  {
    hide Start, End, Apart, SpanIs, ISREndDoc.Valid, Seen, SeenAll, Fresh, FreshAll, Guarded, Repr, ReprAll,
         DocumentAtOrAfter;
    AllOnTogether(Parts(t), docs, d, t.at.currentDoc);
    ReprsArePart(Parts(t));
  }

  // the span of children that have not moved
  lemma SameSpan(t: Isr, docs: seq<Document>, start: int, end: int)
    requires Good(t, docs) && (t.AndIsr? || t.ContainerIsr?)
    ensures IsValid(t) && SpanIs(Parts(t), start, end) ==>
              t.at.currentStart == start && t.at.currentEnd == end
  {
    hide Good, Start, End, Repr, ReprAll, DocId, IsAlreadyOn, Together;
    if IsValid(t) {
      OnOneDocument(t, docs, 0);
    }
  }

  lemma NothingAfterLast(ts: seq<Isr>, docs: seq<Document>)
    ensures NoneIn(ts, docs, |docs|, |docs|)
  {
  }

  // children on the current document have skipped nothing from there on
  lemma ChildrenAreHere(t: Isr, docs: seq<Document>, m: nat)
    requires Good(t, docs) && (t.AndIsr? || t.ContainerIsr?) && IsValid(t) && DocId(t, docs) <= m <= |docs|
    ensures SeenAll(Parts(t), docs, Start(docs, m))
  {
    hide Good, Start, SeenAll, Repr, ReprAll;
    PartsAreHere(t, docs);
    StartOrder(docs, DocId(t, docs), m);
    SeenAllFrom(Parts(t), docs, Start(docs, DocId(t, docs)), Start(docs, m));
  }

  method SeekContainer(t: Isr, ix: Index, ghost docs: seq<Document>, location: int) returns (ok: bool)
    requires HasRanges(ix, docs) && Good(t, docs) && t.ContainerIsr?
    modifies Repr(t)
    ensures Good(t, docs) && ok == IsValid(t)
    ensures ok ==> DocumentAtOrAfter(docs, 0, location) <= DocId(t, docs)
    ensures old(IsValid(t) && GetStartLocation(t) < location) ==>
              && Landed(t, docs, location) && ConjunctionLanded(t, docs, location)
              && IsFirstMatch(t, docs, DocStart(docs, location))
    ensures old(IsValid(t) && (location <= GetStartLocation(t) ||
                               DocumentAtOrAfter(docs, 0, location) <= DocId(t, docs))) ==>
              ok && DocId(t, docs) == old(DocId(t, docs)) && GetStartLocation(t) == old(GetStartLocation(t))
    decreases t, 3
  {
    hide IsFirstMatch, Landed, Good, HasRanges, Seen, SeenAll, Sat, Start, End, DocumentAtOrAfter, DocStart,
         ISREndDoc.Valid, ReprAll, Apart, GoodAll, AllOn, SpanIs, Fresh, FreshAll, Guarded, Together, IsAlreadyOn;
    SeekPlace(t, docs, location);
    GoodIsReady(t, docs);
    ghost var start, end := t.at.currentStart, t.at.currentEnd;
    OnOneDocument(t, docs, DocumentAtOrAfter(docs, 0, location));
    Exist(Repr(t));
    var found := t.at.docs.Seek(location);
    if !found {
      t.at.valid := false;
      NoMatchYet(t, docs, |docs|);
      NothingAfterLast(t.contained, docs);
      NoMatchContainer(t, docs, |docs|, |docs|);
      ok := false;
    } else {
      ok := FindNextContainer(t, ix, docs, t.at.docs.currentDoc);
      SameSpan(t, docs, start, end);
    }
    ConjunctionIsFirst(t, docs, location);
  }

  // a child of an ISROr, moved when it is valid and before the location; `waits` says that the
  // children have skipped nothing from the location on
  method SeekChild(ts: seq<Isr>, i: nat, ix: Index, ghost docs: seq<Document>, location: int, ghost plain: bool,
                   ghost waits: bool)
    requires HasRanges(ix, docs) && Apart(ts) && GoodAll(ts, docs) && i < |ts|
    requires waits ==> forall j :: 0 <= j < i ==> ChildLanded(ts[j], docs, location, plain)
    requires waits ==> forall j :: i <= j < |ts| ==> ChildWaits(ts[j], docs, location, plain)
    modifies if IsValid(ts[i]) && GetStartLocation(ts[i]) < location then Repr(ts[i]) else {}
    ensures GoodAll(ts, docs)
    ensures waits ==> forall j :: 0 <= j <= i ==> ChildLanded(ts[j], docs, location, plain)
    ensures waits ==> forall j :: i < j < |ts| ==> ChildWaits(ts[j], docs, location, plain)
    decreases ts, 0
  {
    hide Good, HasRanges, ChildLanded, ChildWaits, Sat, DocId, Start, End, IsValid, GetStartLocation, Repr, ReprAll,
         Apart, IsPlain, IsFirstMatch, Landed, ConjunctionLanded, DocumentAtOrAfter;
    Exist(ReprAll(ts));
    OthersAreApart(ts, i);
    var c := ts[i];
    assert c in ts;
    if waits {
      AlreadyLanded(c, docs, location, plain);
      ChildIsPlain(c, docs, location, plain);
    }
    if IsValid(c) {
      if GetStartLocation(c) < location {
        var _ := Seek(c, ix, docs, location);
        if waits {
          ChildHasLanded(c, docs, location, plain);
        }
      }
    }
  }

  // what is known of a child before and after its turn; match by match when the whole
  // alternative is plain
  ghost predicate ChildWaits(t: Isr, docs: seq<Document>, location: int, plain: bool)
    reads Repr(t)
  {
    Seen(t, docs, location) && (plain ==> IsPlain(t) && Low(t, docs, location))
  }

  ghost predicate ChildLanded(t: Isr, docs: seq<Document>, location: int, plain: bool)
    reads Repr(t)
  {
    Landed(t, docs, location) && (plain ==> IsPlain(t) && IsFirstMatch(t, docs, location))
  }

  lemma ChildIsPlain(t: Isr, docs: seq<Document>, location: int, plain: bool)
    requires ChildWaits(t, docs, location, plain)
    ensures plain ==> IsPlain(t)
  {
  }

  lemma ChildHasLanded(t: Isr, docs: seq<Document>, location: int, plain: bool)
    requires Landed(t, docs, location) && (plain ==> IsPlain(t) && IsFirstMatch(t, docs, location))
    ensures ChildLanded(t, docs, location, plain)
  {
  }

  lemma AlreadyLanded(t: Isr, docs: seq<Document>, location: int, plain: bool)
    requires Good(t, docs) && ChildWaits(t, docs, location, plain)
    ensures (IsValid(t) ==> location <= GetStartLocation(t)) ==> ChildLanded(t, docs, location, plain)
  {
    hide Good, Start, End, DocId, Repr, Seen, Low, IsPlain, IsFirstMatch;
    if IsValid(t) {
      SpanFits(t, docs);
    }
    if plain && (IsValid(t) ==> location <= GetStartLocation(t)) {
      LowIsFirst(t, docs, location);
    }
  }

  method SeekOr(t: Isr, ix: Index, ghost docs: seq<Document>, location: int) returns (ok: bool)
    requires HasRanges(ix, docs) && Good(t, docs) && t.OrIsr?
    modifies Repr(t)
    ensures Good(t, docs) && ok == IsValid(t)
    ensures old(IsValid(t) && GetStartLocation(t) < location) ==>
              Landed(t, docs, location) && (IsPlain(t) ==> IsFirstMatch(t, docs, location))
    ensures old(IsValid(t) && location <= GetStartLocation(t)) ==>
              ok && DocId(t, docs) == old(DocId(t, docs)) && GetStartLocation(t) == old(GetStartLocation(t))
    ensures !old(IsValid(t)) ==> !ok
    decreases t, 2
  {
    hide Good, HasRanges, Seen, SeenAll, Landed, LowAll, Sat, Start, End, DocumentAtOrAfter, ReprAll, Apart, GoodAll,
         PicksMin, Picks, Idle, Stands, ChildWaits, ChildLanded, IsPlain, IsFirstMatch;
    ghost var valid, waits := t.min.valid, t.min.valid && t.min.currentStart < location;
    ghost var child, start, end := t.min.currentChild, t.min.currentStart, t.min.currentEnd;
    if waits {
      OrChildrenWait(t, docs, location);
    }
    OrStands(t, docs, location);
    GoodIsReady(t, docs);
    ReprsArePart(t.children);
    Exist(Repr(t) + ReprAll(t.children));
    SeekChildren(t.children, ix, docs, location, IsPlain(t), waits);
    Exist(Repr(t));
    assert Start(docs, |docs|) <= INT_MAX by { RangesFit(ix, docs); }
    PickMin(t.children, t.min, docs);
    if waits {
      OrHasLanded(t, docs, location);
    } else {
      OrStays(t, docs, valid, child, start, end);
    }
    return t.min.valid;
  }

  // no child is before the location
  ghost predicate Idle(ts: seq<Isr>, location: int)
    reads ReprAll(ts)
  {
    forall t | t in ts && IsValid(t) :: location <= GetStartLocation(t)
  }

  // how a disjunction stands: what was picked, and what its children have skipped
  ghost predicate Stands(t: Isr, docs: seq<Document>, valid: bool, child: int, start: int, end: int)
    requires t.OrIsr?
    reads ReprAll(t.children)
  {
    && (!valid ==> forall c | c in t.children :: !IsValid(c))
    && (valid ==>
          var d := DocumentAtOrAfter(docs, 0, start);
          && Picks(t.children, child, start, end)
          && d < |docs| && SeenAll(t.children, docs, End(docs, d) + 1)
          && (IsPlain(t) ==> LowAll(t.children, docs, start + 1)))
  }

  lemma OrStands(t: Isr, docs: seq<Document>, location: int)
    requires Good(t, docs) && t.OrIsr?
    ensures Stands(t, docs, t.min.valid, t.min.currentChild, t.min.currentStart, t.min.currentEnd)
    ensures !(t.min.valid && t.min.currentStart < location) ==> Idle(t.children, location)
  {
    hide Start, End, Apart, Sits, SeenAll, LowAll, IsPlain, Repr, ReprAll, DocumentAtOrAfter;
  }

  lemma OrStays(t: Isr, docs: seq<Document>, valid: bool, child: int, start: int, end: int)
    requires t.OrIsr? && Ready(t, docs) && Stands(t, docs, valid, child, start, end)
    requires t.min.valid <==> exists c :: c in t.children && IsValid(c)
    requires t.min.valid ==> PicksMin(t.children, t.min)
    ensures Good(t, docs) && t.min.valid == valid
    ensures valid ==> t.min.currentChild == child && t.min.currentStart == start && t.min.currentEnd == end
  {
    hide Good, Start, End, Apart, Sits, SeenAll, LowAll, IsPlain, Repr, ReprAll, DocumentAtOrAfter, GoodAll;
    if valid {
      assert t.children[child] in t.children;
      OnePick(t.children, child, start, end, t.min);
      var _ := PickedSits(t, docs);
    } else {
      NothingSits(t, docs);
    }
    OrFromParts(t, docs);
  }

  lemma OnePick(ts: seq<Isr>, child: int, start: int, end: int, min: MinMatch)
    requires Picks(ts, child, start, end) && PicksMin(ts, min)
    ensures min.currentChild == child && min.currentStart == start && min.currentEnd == end
  {
    hide Repr, ReprAll, IsValid, GetStartLocation, GetEndLocation;
    assert ts[child] in ts && ts[min.currentChild] in ts;
  }

  lemma OrChildrenSeen(t: Isr, docs: seq<Document>, location: int)
    requires Good(t, docs) && t.OrIsr? && IsValid(t) && GetStartLocation(t) < location
    ensures SeenAll(t.children, docs, location)
  {
    hide Start, End, Apart, PicksMin, DocId, Sat, Seen, LowAll, IsPlain;
    var d := DocId(t, docs);
    forall c | c in t.children ensures Seen(c, docs, location) {
      assert Seen(c, docs, End(docs, d) + 1);
      EndIsBeforeNext(docs, d);
      forall x | 0 <= x < |docs| && location <= Start(docs, x) ensures End(docs, d) + 1 <= Start(docs, x) {
        StartOrder(docs, x, d);
        StartOrder(docs, d + 1, x);
      }
      SeenMoves(c, docs, End(docs, d) + 1, location);
    }
  }

  lemma OrChildrenWait(t: Isr, docs: seq<Document>, location: int)
    requires Good(t, docs) && t.OrIsr? && IsValid(t) && GetStartLocation(t) < location
    ensures forall c :: c in t.children ==> ChildWaits(c, docs, location, IsPlain(t))
  {
    hide Start, End, Apart, PicksMin, DocId, Sat, Seen, Low, Sits;
    OrChildrenSeen(t, docs, location);
    forall c | c in t.children ensures ChildWaits(c, docs, location, IsPlain(t)) {
      if IsPlain(t) {
        LowLater(c, docs, t.min.currentStart + 1, location);
      }
    }
  }

  method SeekChildren(ts: seq<Isr>, ix: Index, ghost docs: seq<Document>, location: int, ghost plain: bool,
                      ghost waits: bool)
    requires HasRanges(ix, docs) && Apart(ts) && GoodAll(ts, docs)
    requires waits ==> forall t :: t in ts ==> ChildWaits(t, docs, location, plain)
    modifies if Idle(ts, location) then {} else ReprAll(ts)
    ensures GoodAll(ts, docs)
    ensures waits ==> forall t :: t in ts ==> ChildLanded(t, docs, location, plain)
    decreases ts, 1
  {
    hide Good, HasRanges, ChildWaits, ChildLanded, Sat, DocId, Start, End, IsValid, GetStartLocation, Repr, ReprAll,
         Apart, GoodAll, Idle;
    ReprsArePart(ts);
    for i := 0 to |ts|
      invariant GoodAll(ts, docs)
      invariant waits ==> forall j :: 0 <= j < i ==> ChildLanded(ts[j], docs, location, plain)
      invariant waits ==> forall j :: i <= j < |ts| ==> ChildWaits(ts[j], docs, location, plain)
      invariant old(Idle(ts, location)) ==> Idle(ts, location)
    {
      PartOfAll(ts, i);
      IdlePart(ts, location, i);
      Exist(ReprAll(ts));
      SeekChild(ts, i, ix, docs, location, plain, waits);
    }
  }

  lemma IdlePart(ts: seq<Isr>, location: int, i: nat)
    requires i < |ts|
    ensures Idle(ts, location) ==> !(IsValid(ts[i]) && GetStartLocation(ts[i]) < location)
  {
    hide IsValid, GetStartLocation;
  }

  lemma OrHasLanded(t: Isr, docs: seq<Document>, location: int)
    requires t.OrIsr? && Ready(t, docs)
    requires forall c :: c in t.children ==> ChildLanded(c, docs, location, IsPlain(t))
    requires t.min.valid <==> exists c :: c in t.children && IsValid(c)
    requires t.min.valid ==> PicksMin(t.children, t.min)
    ensures Good(t, docs) && Landed(t, docs, location)
    ensures IsPlain(t) ==> IsFirstMatch(t, docs, location)
  {
    hide Good, Seen, Sat, Start, End, DocId, ReprAll, Apart, GoodAll, PicksMin, Repr, IsPlain, IsFirstMatch, Low;
    if IsPlain(t) {
      PlainChildrenLanded(t, docs, location);
    }
    OrIsGood(t, docs, location);
    if IsPlain(t) {
      LowIsFirst(t, docs, location);
    }
  }

  lemma PlainChildrenLanded(t: Isr, docs: seq<Document>, location: int)
    requires t.OrIsr? && forall c :: c in t.children ==> IsFirstMatch(c, docs, location)
    requires t.min.valid <==> exists c :: c in t.children && IsValid(c)
    requires t.min.valid ==> PicksMin(t.children, t.min)
    ensures Low(t, docs, location)
    ensures t.min.valid ==> location <= t.min.currentStart && LowAll(t.children, docs, t.min.currentStart + 1)
  {
    hide Repr, ReprAll, StartsAt, Low;
    forall c | c in t.children ensures Low(c, docs, location) {
      FirstIsLow(c, docs, location);
    }
    OrIsLow(t, docs, location);
    if t.min.valid {
      assert t.children[t.min.currentChild] in t.children;
      LowAllLater(t.children, docs, location, t.min.currentStart + 1);
    }
  }

  lemma FirstIsLow(t: Isr, docs: seq<Document>, location: int)
    requires IsFirstMatch(t, docs, location)
    ensures Low(t, docs, location)
  {
    hide StartsAt;
  }

  // ---- Next

  // how far a stream has come: a count that every Next makes greater
  ghost function Steps(t: Isr, docs: seq<Document>): int
    reads Repr(t)
    decreases t
  {
    match t
    case WordIsr(word) => word.currentPostIdx
    case PhraseIsr(phrase) => if phrase.valid then phrase.currentStart else Start(docs, |docs|)
    case AndIsr(_, at) => if at.valid then at.currentDoc else |docs|
    case OrIsr(children, _) => Sum(AllSteps(children, docs))
    case ContainerIsr(_, _, at) => if at.valid then at.currentDoc else |docs|
  }

  ghost function AllSteps(ts: seq<Isr>, docs: seq<Document>): seq<int>
    reads ReprAll(ts)
    decreases ts
  {
    if ts == [] then [] else [Steps(ts[0], docs)] + AllSteps(ts[1..], docs)
  }

  lemma {:induction false} AllStepsAre(ts: seq<Isr>, docs: seq<Document>)
    ensures |AllSteps(ts, docs)| == |ts|
    ensures forall i :: 0 <= i < |ts| ==> AllSteps(ts, docs)[i] == Steps(ts[i], docs)
  {
    hide Steps, Repr;
    if ts != [] {
      AllStepsAre(ts[1..], docs);
    }
  }

  function Sum(xs: seq<int>): int {
    if xs == [] then 0 else xs[0] + Sum(xs[1..])
  }

  // the child at i is further on, the others are where they were
  ghost predicate OneFurther(before: seq<int>, after: seq<int>, i: int) {
    && |before| == |after|
    && 0 <= i < |before|
    && before[i] < after[i]
    && forall j :: 0 <= j < |before| && j != i ==> before[j] == after[j]
  }

  lemma {:induction false} SumGrows(xs: seq<int>, ys: seq<int>, i: nat)
    requires OneFurther(xs, ys, i)
    ensures Sum(xs) < Sum(ys)
  {
    if i > 0 {
      SumGrows(xs[1..], ys[1..], i - 1);
    } else {
      assert xs[1..] == ys[1..];
    }
  }

  ghost predicate Advanced(t: Isr, docs: seq<Document>, d: int)
    requires 0 <= d < |docs|
    reads Repr(t)
  {
    && Seen(t, docs, End(docs, d) + 1)
    && (IsValid(t) ==> d <= DocId(t, docs) < |docs|)
  }

  // Next leaves the current match: the stream is further on, its match does not start
  // earlier, and it has skipped no match after the one it left, nor any later document.
  // Only a disjunction may stay on the same start, when another child matches there;
  // conjunctions and containers emit each document once
  method Next(t: Isr, ix: Index, ghost docs: seq<Document>) returns (ok: bool)
    requires HasRanges(ix, docs) && Good(t, docs) && IsValid(t)
    modifies Repr(t)
    ensures Good(t, docs) && ok == IsValid(t)
    ensures 0 <= old(DocId(t, docs)) < |docs| && Advanced(t, docs, old(DocId(t, docs)))
    ensures old(Steps(t, docs)) < Steps(t, docs)
    ensures ok ==> old(GetStartLocation(t)) <= GetStartLocation(t)
    ensures ok && !t.OrIsr? ==> old(GetStartLocation(t)) < GetStartLocation(t)
    ensures IsPlain(t) ==> Low(t, docs, old(GetStartLocation(t)) + 1)
    ensures ok && (t.AndIsr? || t.ContainerIsr?) ==> old(DocId(t, docs)) < DocId(t, docs)
    decreases t, 4
  {
    hide Good, Sat, Start, End, HasRanges, DocumentAtOrAfter, Seen, Low, Steps, AllSteps, Apart, IsPlain, Advanced,
         OneFurther;
    GoodSits(t, docs);
    match t
    case WordIsr(word) => ok := NextWord(word, docs);
    case PhraseIsr(phrase) => ok := NextPhrase(phrase, docs);
    case OrIsr(_, _) => ok := NextOr(t, ix, docs);
    case AndIsr(_, _) => ok := NextAnd(t, ix, docs);
    case ContainerIsr(_, _, _) => ok := NextContainer(t, ix, docs);
  }

  method NextAnd(t: Isr, ix: Index, ghost docs: seq<Document>) returns (ok: bool)
    requires HasRanges(ix, docs) && Good(t, docs) && t.AndIsr? && IsValid(t)
    modifies Repr(t)
    ensures Good(t, docs) && ok == IsValid(t)
    ensures 0 <= old(DocId(t, docs)) < |docs| && Advanced(t, docs, old(DocId(t, docs)))
    ensures ok ==> old(DocId(t, docs)) < DocId(t, docs) && old(GetStartLocation(t)) < GetStartLocation(t)
    ensures old(Steps(t, docs)) < Steps(t, docs) && !IsPlain(t)
    decreases t, 3
  {
    hide Good, Sat, Start, End, HasRanges, DocumentAtOrAfter, Seen, Low, SeenAll, Apart, ISREndDoc.Valid, Fresh,
         FreshAll, Guarded, Together, NotBefore, IsAlreadyOn;
    GoodSits(t, docs);
    ghost var d := t.at.currentDoc;
    ChildrenAreHere(t, docs, d + 1);
    GoodIsReady(t, docs);
    EndIsBeforeNext(docs, d);
    ok := FindNextAnd(t, ix, docs, t.at.currentDoc + 1);
    GoodSits(t, docs);
    if ok {
      LaterStart(docs, d, t.at.currentDoc, old(t.at.currentStart), t.at.currentStart);
    }
  }

  method NextContainer(t: Isr, ix: Index, ghost docs: seq<Document>) returns (ok: bool)
    requires HasRanges(ix, docs) && Good(t, docs) && t.ContainerIsr? && IsValid(t)
    modifies Repr(t)
    ensures Good(t, docs) && ok == IsValid(t)
    ensures 0 <= old(DocId(t, docs)) < |docs| && Advanced(t, docs, old(DocId(t, docs)))
    ensures ok ==> old(DocId(t, docs)) < DocId(t, docs) && old(GetStartLocation(t)) < GetStartLocation(t)
    ensures old(Steps(t, docs)) < Steps(t, docs) && !IsPlain(t)
    decreases t, 3
  {
    hide Good, Sat, Start, End, HasRanges, DocumentAtOrAfter, Seen, Low, SeenAll, Apart, ISREndDoc.Valid, Fresh,
         FreshAll, Guarded, Together, NotBefore, IsAlreadyOn;
    GoodSits(t, docs);
    ghost var d := t.at.currentDoc;
    ChildrenAreHere(t, docs, d + 1);
    GoodIsReady(t, docs);
    EndIsBeforeNext(docs, d);
    ok := FindNextContainer(t, ix, docs, t.at.currentDoc + 1);
    GoodSits(t, docs);
    if ok {
      LaterStart(docs, d, t.at.currentDoc, old(t.at.currentStart), t.at.currentStart);
    }
  }

  lemma LaterHit(word: ISRWord, docs: seq<Document>, i: nat)
    requires IsLeafOf(word, docs) && i < word.currentPostIdx < |word.hits|
    ensures word.hits[i].pos < word.hits[word.currentPostIdx].pos
  {
    hide Hits, Decodes;
    HitsAre(docs, word.term);
  }

  // a later document starts after every match of an earlier one
  lemma LaterStart(docs: seq<Document>, d: nat, x: nat, p: int, q: int)
    requires d < x < |docs| && p <= End(docs, d) && Start(docs, x) <= q
    ensures p < q
  {
    hide Start, End;
    RangesAreDisjoint(docs, d, x);
  }

  method NextWord(word: ISRWord, ghost docs: seq<Document>) returns (ok: bool)
    requires Good(WordIsr(word), docs) && word.IsValid()
    modifies word
    ensures Good(WordIsr(word), docs) && ok == word.IsValid()
    ensures 0 <= old(DocId(WordIsr(word), docs)) < |docs|
    ensures Advanced(WordIsr(word), docs, old(DocId(WordIsr(word), docs)))
    ensures word.currentPostIdx > old(word.currentPostIdx)
    ensures old(Steps(WordIsr(word), docs)) < Steps(WordIsr(word), docs)
    ensures ok ==> old(word.currentAbsolutePos) < word.currentAbsolutePos
    ensures Low(WordIsr(word), docs, old(word.currentAbsolutePos) + 1)
  {
    hide Hits, Start, DocumentAtOrAfter, Decodes, Seen, Sat, End, ScanFrom, Low;
    WordSits(word, docs);
    ghost var d, pos := DocId(WordIsr(word), docs), word.currentAbsolutePos;
    ok := word.Next();
    WordSits(word, docs);
    ghost var before := word.hits[old(word.currentPostIdx)].pos;
    WordSeen(word, docs, old(word.currentPostIdx) + 1, before, End(docs, d) + 1);
    WordLow(word, docs, old(word.currentPostIdx) + 1, before, before + 1);
    if ok {
      LaterHit(word, docs, old(word.currentPostIdx));
      DocumentOrder(docs, d, DocId(WordIsr(word), docs), word.currentAbsolutePos);
    }
  }

  method NextPhrase(phrase: ISRPhrase, ghost docs: seq<Document>) returns (ok: bool)
    requires Good(PhraseIsr(phrase), docs) && phrase.valid
    modifies phrase, phrase.children
    ensures Good(PhraseIsr(phrase), docs) && ok == phrase.valid
    ensures 0 <= old(DocId(PhraseIsr(phrase), docs)) < |docs|
    ensures Advanced(PhraseIsr(phrase), docs, old(DocId(PhraseIsr(phrase), docs)))
    ensures ok ==> phrase.currentStart > old(phrase.currentStart)
    ensures Low(PhraseIsr(phrase), docs, old(phrase.currentStart) + 1)
    ensures old(Steps(PhraseIsr(phrase), docs)) < Steps(PhraseIsr(phrase), docs)
  {
    hide ISRPhrase.Valid, PhraseHit, Start, End, DocumentAtOrAfter, Seen, Sat, Low;
    SpanFits(PhraseIsr(phrase), docs);
    PhraseSits(phrase, docs);
    ghost var d := DocId(PhraseIsr(phrase), docs);
    ok := phrase.Next(docs);
    PhraseSits(phrase, docs);
    PhraseSeen(phrase, docs, End(docs, d) + 1);
    PhraseLow(phrase, docs, old(phrase.currentStart) + 1);
    if ok {
      DocumentOrder(docs, d, DocId(PhraseIsr(phrase), docs), phrase.currentStart);
    }
  }

  // what is known of every child of an ISROr whose match starts at `start` in document d,
  // before and after its current child moves on
  ghost predicate ChildPast(t: Isr, docs: seq<Document>, d: int, start: int, plain: bool)
    requires 0 <= d < |docs|
    reads Repr(t)
  {
    && Advanced(t, docs, d)
    && (IsValid(t) ==> start <= GetStartLocation(t))
    && (plain ==> IsPlain(t) && Low(t, docs, start + 1))
  }

  method NextChild(ts: seq<Isr>, i: nat, ix: Index, ghost docs: seq<Document>, ghost d: int, ghost plain: bool)
    requires HasRanges(ix, docs) && Apart(ts) && GoodAll(ts, docs) && i < |ts| && 0 <= d < |docs|
    requires IsValid(ts[i]) && DocId(ts[i], docs) == d
    requires forall t :: t in ts ==> ChildPast(t, docs, d, GetStartLocation(ts[i]), plain)
    modifies Repr(ts[i])
    ensures GoodAll(ts, docs)
    ensures forall t :: t in ts ==> ChildPast(t, docs, d, old(GetStartLocation(ts[i])), plain)
    ensures OneFurther(old(AllSteps(ts, docs)), AllSteps(ts, docs), i)
    decreases ts, 0
  {
    hide Good, HasRanges, Advanced, Low, Sat, DocId, Start, End, IsValid, GetStartLocation, Repr, ReprAll, Apart,
         IsPlain, ChildPast, Steps, AllSteps, Sum;
    Exist(ReprAll(ts));
    OthersAreApart(ts, i);
    ghost var start, before := GetStartLocation(ts[i]), AllSteps(ts, docs);
    AllStepsAre(ts, docs);
    PastIsPlain(ts[i], docs, d, start, plain);
    var _ := Next(ts[i], ix, docs);
    IsPast(ts[i], docs, d, start, plain);
    AllStepsAre(ts, docs);
  }

  lemma PastIsPlain(t: Isr, docs: seq<Document>, d: int, start: int, plain: bool)
    requires 0 <= d < |docs| && ChildPast(t, docs, d, start, plain)
    ensures plain ==> IsPlain(t)
  {
  }

  lemma IsPast(t: Isr, docs: seq<Document>, d: int, start: int, plain: bool)
    requires 0 <= d < |docs| && Advanced(t, docs, d) && (IsValid(t) ==> start <= GetStartLocation(t))
    requires plain ==> IsPlain(t) && Low(t, docs, start + 1)
    ensures ChildPast(t, docs, d, start, plain)
  {
  }

  lemma OrChildrenAdvanced(t: Isr, docs: seq<Document>)
    requires Good(t, docs) && t.OrIsr? && IsValid(t)
    ensures 0 <= DocId(t, docs) < |docs|
    ensures 0 <= t.min.currentChild < |t.children|
    ensures var picked := t.children[t.min.currentChild];
            IsValid(picked) && DocId(picked, docs) == DocId(t, docs) && GetStartLocation(picked) == GetStartLocation(t)
    ensures forall c :: c in t.children ==> Advanced(c, docs, DocId(t, docs))
  {
    hide Start, End, Apart, DocumentAtOrAfter, Sat, LowAll, IsPlain;
    var picked := t.children[t.min.currentChild];
    assert picked in t.children;
    SpanFits(picked, docs);
    SpanFits(t, docs);
    DocIdIs(docs, GetStartLocation(t), DocId(picked, docs));
    forall c | c in t.children ensures Advanced(c, docs, DocId(t, docs)) {
      if IsValid(c) {
        SpanFits(c, docs);
        DocumentOrder(docs, DocId(t, docs), DocId(c, docs), GetStartLocation(c));
      }
    }
  }

  lemma OrChildrenPast(t: Isr, docs: seq<Document>)
    requires Good(t, docs) && t.OrIsr? && IsValid(t) && 0 <= DocId(t, docs) < |docs|
    requires forall c :: c in t.children ==> Advanced(c, docs, DocId(t, docs))
    ensures forall c :: c in t.children ==> ChildPast(c, docs, DocId(t, docs), GetStartLocation(t), IsPlain(t))
  {
    hide Start, End, Apart, Sat, Low, DocId, Advanced, SeenAll, Sits, Repr, ReprAll;
  }

  // only the current child moves
  method NextOr(t: Isr, ix: Index, ghost docs: seq<Document>) returns (ok: bool)
    requires HasRanges(ix, docs) && Good(t, docs) && t.OrIsr? && IsValid(t)
    modifies Repr(t)
    ensures Good(t, docs) && ok == IsValid(t)
    ensures 0 <= old(DocId(t, docs)) < |docs| && Advanced(t, docs, old(DocId(t, docs)))
    ensures OneFurther(old(AllSteps(t.children, docs)), AllSteps(t.children, docs), old(t.min.currentChild))
    ensures old(Steps(t, docs)) < Steps(t, docs)
    ensures ok ==> old(GetStartLocation(t)) <= GetStartLocation(t)
    ensures IsPlain(t) ==> Low(t, docs, old(GetStartLocation(t)) + 1)
    decreases t, 2
  {
    hide Good, HasRanges, Seen, SeenAll, Advanced, Sat, Start, End, DocId, DocumentAtOrAfter, ReprAll, Apart, GoodAll,
         PicksMin, ChildPast, Low, IsPlain, AllSteps, Sum, OneFurther;
    OrChildrenAdvanced(t, docs);
    OrChildrenPast(t, docs);
    ghost var d, start, before := DocId(t, docs), t.min.currentStart, AllSteps(t.children, docs);
    GoodIsReady(t, docs);
    PartOfAll(t.children, t.min.currentChild);
    NextChild(t.children, t.min.currentChild, ix, docs, d, IsPlain(t));
    ghost var after := AllSteps(t.children, docs);
    SumGrows(before, after, t.min.currentChild);
    Exist(Repr(t));
    ReprsArePart(t.children);
    assert Start(docs, |docs|) <= INT_MAX by { RangesFit(ix, docs); }
    PickMin(t.children, t.min, docs);
    OrHasAdvanced(t, docs, d, start);
    return t.min.valid;
  }

  lemma OrHasAdvanced(t: Isr, docs: seq<Document>, d: int, start: int)
    requires t.OrIsr? && Ready(t, docs) && 0 <= d < |docs|
    requires forall c :: c in t.children ==> ChildPast(c, docs, d, start, IsPlain(t))
    requires t.min.valid <==> exists c :: c in t.children && IsValid(c)
    requires t.min.valid ==> PicksMin(t.children, t.min)
    ensures Good(t, docs) && Advanced(t, docs, d)
    ensures t.min.valid ==> start <= t.min.currentStart
    ensures IsPlain(t) ==> Low(t, docs, start + 1)
  {
    hide Good, Seen, Sat, Start, End, DocId, ReprAll, Apart, GoodAll, PicksMin, Repr, IsPlain, Low;
    PickedIsPast(t, docs, d, start);
    forall c | c in t.children && IsValid(c)
      ensures 0 <= DocId(c, docs) < |docs| && End(docs, d) + 1 <= End(docs, DocId(c, docs)) + 1
    {
      EarlierDoc(docs, d, DocId(c, docs));
    }
    OrIsGood(t, docs, End(docs, d) + 1);
  }

  lemma PickedIsPast(t: Isr, docs: seq<Document>, d: int, start: int)
    requires t.OrIsr? && 0 <= d < |docs|
    requires forall c :: c in t.children ==> ChildPast(c, docs, d, start, IsPlain(t))
    requires t.min.valid <==> exists c :: c in t.children && IsValid(c)
    requires t.min.valid ==> PicksMin(t.children, t.min)
    ensures t.min.valid ==> start <= t.min.currentStart
    ensures IsPlain(t) ==> Low(t, docs, start + 1)
    ensures IsPlain(t) && t.min.valid ==> LowAll(t.children, docs, t.min.currentStart + 1)
  {
    hide Repr, ReprAll, Low, IsPlain, Advanced;
    if t.min.valid {
      assert t.children[t.min.currentChild] in t.children;
    }
    if IsPlain(t) {
      OrIsLow(t, docs, start + 1);
      if t.min.valid {
        LowAllLater(t.children, docs, start + 1, t.min.currentStart + 1);
      }
    }
  }
}
