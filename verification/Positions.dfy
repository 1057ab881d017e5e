/** The global position line of a corpus, and the hits of a term on it.

    A corpus is a sequence of documents, a document the sequence of its tokens.
    Document i occupies the positions Start(i) .. End(i): one position for each of
    its tokens, and the position End(i) reserved for its end-of-document posts. */
module Positions {
  import opened Posting

  datatype Token = Token(term: string, dec: Decoration)

  type Document = tokens: seq<Token> | IsDocument(tokens) witness []

  predicate IsDocument(tokens: seq<Token>) {
    forall k :: 0 <= k < |tokens| ==> IsField(tokens[k].dec)
  }

  predicate IsField(dec: Decoration) { dec != Eod && dec != Other }

  ghost predicate HasTerm(doc: Document, term: string) {
    exists k :: 0 <= k < |doc| && doc[k].term == term
  }

  function Start(docs: seq<Document>, i: nat): nat
    requires i <= |docs|
  {
    if i == 0 then 0 else Start(docs, i - 1) + |docs[i - 1]| + 1
  }

  function End(docs: seq<Document>, i: nat): nat
    requires i < |docs|
  {
    Start(docs, i) + |docs[i]|
  }

  lemma {:induction false} RangesAreDisjoint(docs: seq<Document>, i: nat, j: nat)
    requires i < j <= |docs|
    ensures Start(docs, i) <= End(docs, i) < Start(docs, j)
  {
    if i + 1 < j {
      RangesAreDisjoint(docs, i, j - 1);
    }
  }

  lemma {:induction false} StartOfPrefix(docs: seq<Document>, n: nat, i: nat)
    requires i <= n <= |docs|
    ensures Start(docs[..n], i) == Start(docs, i)
  {
    if i > 0 {
      StartOfPrefix(docs, n, i - 1);
    }
  }

  // the hits of a term among the tokens of one document, the document starting at base
  function WordHits(tokens: seq<Token>, base: int, term: string): seq<Hit> {
    if tokens == [] then []
    else
      var last := tokens[|tokens| - 1];
      WordHits(tokens[..|tokens| - 1], base, term) +
      if last.term == term then [Hit(base + |tokens| - 1, last.dec)] else []
  }

  // ... followed by one end-of-document hit when the term occurs at all
  function DocHits(tokens: seq<Token>, base: int, term: string): seq<Hit> {
    var words := WordHits(tokens, base, term);
    if words == [] then [] else words + [Hit(base + |tokens|, Eod)]
  }

  function Hits(docs: seq<Document>, term: string): seq<Hit> {
    if docs == [] then []
    else
      var n := |docs| - 1;
      Hits(docs[..n], term) + DocHits(docs[n], Start(docs, n), term)
  }

  // what is at position h.pos of the line, as seen by `term`
  ghost predicate IsHitIn(docs: seq<Document>, d: nat, term: string, h: Hit) {
    && d < |docs|
    && if h.dec == Eod then h.pos == End(docs, d) && HasTerm(docs[d], term)
       else && Start(docs, d) <= h.pos < End(docs, d)
            && docs[d][h.pos - Start(docs, d)] == Token(term, h.dec)
  }

  ghost predicate IsHit(docs: seq<Document>, term: string, h: Hit) {
    exists d: nat :: IsHitIn(docs, d, term, h)
  }

  ghost predicate IsWordAt(tokens: seq<Token>, base: int, term: string, h: Hit) {
    base <= h.pos < base + |tokens| && tokens[h.pos - base] == Token(term, h.dec)
  }

  lemma {:induction false} WordHitsAre(tokens: seq<Token>, base: int, term: string)
    ensures Increasing(WordHits(tokens, base, term))
    ensures forall h :: h in WordHits(tokens, base, term) <==> IsWordAt(tokens, base, term, h)
  {
    if tokens != [] {
      var n := |tokens| - 1;
      var init := tokens[..n];
      WordHitsAre(init, base, term);
      var hits := WordHits(init, base, term);
      var last := Hit(base + n, tokens[n].dec);
      var tail := if tokens[n].term == term then [last] else [];
      assert WordHits(tokens, base, term) == hits + tail;
      forall h ensures h in hits + tail <==> IsWordAt(tokens, base, term, h) {
        assert h in hits <==> IsWordAt(init, base, term, h);
      }
      IncreasingConcat(hits, tail, base + n);
    }
  }

  lemma WordHitsEmpty(tokens: seq<Token>, base: int, term: string)
    ensures WordHits(tokens, base, term) != [] <==>
            exists k :: 0 <= k < |tokens| && tokens[k].term == term
  {
    hide WordHits, Increasing;
    WordHitsAre(tokens, base, term);
    var hits := WordHits(tokens, base, term);
    if hits != [] {
      assert hits[0] in hits;
      assert tokens[hits[0].pos - base].term == term;
    }
    forall k | 0 <= k < |tokens| && tokens[k].term == term ensures hits != [] {
      assert IsWordAt(tokens, base, term, Hit(base + k, tokens[k].dec));
    }
  }

  lemma DocHitsMembers(tokens: seq<Token>, base: int, term: string, h: Hit)
    requires forall k :: 0 <= k < |tokens| ==> tokens[k].dec != Eod
    ensures h in DocHits(tokens, base, term) <==>
            if h.dec == Eod
            then h.pos == base + |tokens| && exists k :: 0 <= k < |tokens| && tokens[k].term == term
            else IsWordAt(tokens, base, term, h)
  {
    var words := WordHits(tokens, base, term);
    WordHitsAre(tokens, base, term);
    WordHitsEmpty(tokens, base, term);
    assert h in words <==> IsWordAt(tokens, base, term, h);
    var eod := Hit(base + |tokens|, Eod);
    assert words != [] ==> (h in words + [eod] <==> h in words || h == eod);
  }

  lemma DocHitsIncrease(tokens: seq<Token>, base: int, term: string)
    ensures Increasing(DocHits(tokens, base, term))
  {
    WordHitsAre(tokens, base, term);
    var words := WordHits(tokens, base, term);
    forall h | h in words ensures h.pos < base + |tokens| {
      assert IsWordAt(tokens, base, term, h);
    }
    IncreasingConcat(words, [Hit(base + |tokens|, Eod)], base + |tokens|);
  }

  lemma HitOfPrefix(docs: seq<Document>, term: string, h: Hit)
    requires docs != []
    ensures IsHit(docs, term, h) <==>
            IsHit(docs[..|docs| - 1], term, h) || IsHitIn(docs, |docs| - 1, term, h)
  {
    var n := |docs| - 1;
    forall d: nat | d < n
      ensures IsHitIn(docs, d, term, h) <==> IsHitIn(docs[..n], d, term, h)
    {
      StartOfPrefix(docs, n, d);
    }
    if IsHit(docs, term, h) {
      var d: nat :| IsHitIn(docs, d, term, h);
      assert d < n ==> IsHitIn(docs[..n], d, term, h);
    }
    if IsHit(docs[..n], term, h) {
      var d: nat :| IsHitIn(docs[..n], d, term, h);
      assert IsHitIn(docs, d, term, h);
    }
  }

  lemma LastDocHitsAre(docs: seq<Document>, term: string, h: Hit)
    requires docs != []
    ensures var n := |docs| - 1;
            h in DocHits(docs[n], Start(docs, n), term) <==> IsHitIn(docs, n, term, h)
  {
    var n := |docs| - 1;
    DocHitsMembers(docs[n], Start(docs, n), term, h);
  }

  lemma {:induction false} HitsMembers(docs: seq<Document>, term: string, h: Hit)
    ensures h in Hits(docs, term) <==> IsHit(docs, term, h)
  {
    if docs != [] {
      HitsMembers(docs[..|docs| - 1], term, h);
      LastDocHitsAre(docs, term, h);
      HitOfPrefix(docs, term, h);
    }
  }

  lemma HitBounds(docs: seq<Document>, term: string, h: Hit)
    requires IsHit(docs, term, h)
    ensures 0 <= h.pos < Start(docs, |docs|) && h.dec != Other
  {
    var d: nat :| IsHitIn(docs, d, term, h);
    RangesAreDisjoint(docs, d, |docs|);
  }

  // Hits lists, in increasing order of position, exactly the positions of the line
  // that hold the term and the end slots of the documents that contain it
  lemma {:induction false} HitsAre(docs: seq<Document>, term: string)
    ensures Increasing(Hits(docs, term))
    ensures forall h :: h in Hits(docs, term) <==> IsHit(docs, term, h)
    ensures forall h :: h in Hits(docs, term) ==> 0 <= h.pos < Start(docs, |docs|) && h.dec != Other
  {
    forall h
      ensures h in Hits(docs, term) <==> IsHit(docs, term, h)
      ensures IsHit(docs, term, h) ==> 0 <= h.pos < Start(docs, |docs|) && h.dec != Other
    {
      HitsMembers(docs, term, h);
      if IsHit(docs, term, h) {
        HitBounds(docs, term, h);
      }
    }
    HitsIncrease(docs, term);
  }

  lemma {:induction false} HitsIncrease(docs: seq<Document>, term: string)
    ensures Increasing(Hits(docs, term))
  {
    if docs != [] {
      var n := |docs| - 1;
      HitsIncrease(docs[..n], term);
      var earlier := Hits(docs[..n], term);
      var hits := DocHits(docs[n], Start(docs, n), term);
      DocHitsIncrease(docs[n], Start(docs, n), term);
      forall h | h in earlier ensures h.pos < Start(docs, n) {
        HitsMembers(docs[..n], term, h);
        HitBounds(docs[..n], term, h);
        StartOfPrefix(docs, n, n);
      }
      forall h | h in hits ensures Start(docs, n) <= h.pos {
        LastDocHitsAre(docs, term, h);
      }
      IncreasingConcat(earlier, hits, Start(docs, n));
    }
  }

  // the number of documents that contain the term
  ghost function DocCount(docs: seq<Document>, term: string): nat {
    if docs == [] then 0
    else DocCount(docs[..|docs| - 1], term) + if HasTerm(docs[|docs| - 1], term) then 1 else 0
  }

  // the last document that contains the term, or -1
  ghost function LastDoc(docs: seq<Document>, term: string): int {
    if docs == [] then -1
    else if HasTerm(docs[|docs| - 1], term) then |docs| - 1
    else LastDoc(docs[..|docs| - 1], term)
  }

  // ---- the counts, as numbers of documents and of places

  lemma {:induction false} DocCountIs(docs: seq<Document>, term: string)
    ensures DocCount(docs, term) == |set d | 0 <= d < |docs| && HasTerm(docs[d], term)|
  {
    hide HasTerm;
    if docs != [] {
      var n := |docs| - 1;
      var init := docs[..n];
      DocCountIs(init, term);
      var those := set d | 0 <= d < |docs| && HasTerm(docs[d], term);
      assert those == (set d | 0 <= d < |init| && HasTerm(init[d], term)) + if HasTerm(docs[n], term) then {n} else {};
    }
  }

  lemma {:induction false} LastDocIs(docs: seq<Document>, term: string)
    ensures forall d :: LastDoc(docs, term) < d < |docs| && 0 <= d ==> !HasTerm(docs[d], term)
    ensures LastDoc(docs, term) == -1 || (0 <= LastDoc(docs, term) < |docs| && HasTerm(docs[LastDoc(docs, term)], term))
  {
    hide HasTerm;
    if docs != [] {
      LastDocIs(docs[..|docs| - 1], term);
    }
  }
}
