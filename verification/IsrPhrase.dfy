/** ISRPhrase: words at consecutive positions of one field. */
module PhraseReading {
  import opened Posting
  import opened Positions
  import opened IndexReading
  import opened WordReading

  // the terms at k, k + 1, ... of one document, all in the same field
  ghost predicate PhraseAt(doc: Document, terms: seq<string>, k: int, dec: Decoration) {
    && 0 <= k && k + |terms| <= |doc|
    && forall i :: 0 <= i < |terms| ==> doc[k + i] == Token(terms[i], dec)
  }

  ghost predicate HasPhrase(doc: Document, terms: seq<string>) {
    exists k, dec :: PhraseAt(doc, terms, k, dec)
  }

  // what the cursors can see: each term has a hit of one decoration at its distance from p
  ghost predicate PhraseHitOf(docs: seq<Document>, terms: seq<string>, p: int, dec: Decoration) {
    && IsField(dec)
    && forall i :: 0 <= i < |terms| ==> Hit(p + i, dec) in Hits(docs, terms[i])
  }

  ghost predicate PhraseHit(docs: seq<Document>, terms: seq<string>, p: int) {
    exists dec :: PhraseHitOf(docs, terms, p, dec)
  }

  ghost predicate NoPhraseIn(docs: seq<Document>, terms: seq<string>, lo: int, hi: int) {
    forall p :: lo <= p < hi ==> !PhraseHit(docs, terms, p)
  }

  ghost predicate NoPhraseFrom(docs: seq<Document>, terms: seq<string>, lo: int) {
    forall p :: lo <= p ==> !PhraseHit(docs, terms, p)
  }

  // no match crosses a document: the slot between two documents holds no word
  lemma {:induction false} HitsShareDocument(docs: seq<Document>, terms: seq<string>, p: int, dec: Decoration,
                                             d: nat, i: nat)
    requires PhraseHitOf(docs, terms, p, dec) && i < |terms|
    requires d < |docs| && Start(docs, d) <= p < End(docs, d)
    ensures Start(docs, d) <= p + i < End(docs, d)
    ensures docs[d][p + i - Start(docs, d)] == Token(terms[i], dec)
  {
    hide Start, Hits;
    var h := Hit(p + i, dec);
    HitsAre(docs, terms[i]);
    assert h in Hits(docs, terms[i]);
    var e: nat :| IsHitIn(docs, e, terms[i], h);
    if i > 0 {
      HitsShareDocument(docs, terms, p, dec, d, i - 1);
      assert Start(docs, d) <= h.pos <= End(docs, d);
    }
    DocumentIsUnique(docs, h.pos, d, e);
  }

  // phrase exactness: the phrase hits are the positions where the words occur
  // consecutively within one field of one document
  lemma PhraseHitIsInDocument(docs: seq<Document>, terms: seq<string>, p: int, dec: Decoration)
    requires terms != []
    ensures PhraseHitOf(docs, terms, p, dec) <==>
            exists d :: 0 <= d < |docs| && PhraseAt(docs[d], terms, p - Start(docs, d), dec)
  {
    hide Start, Hits, PhraseAt, IsHitIn;
    if PhraseHitOf(docs, terms, p, dec) {
      var d := DocumentOfPhrase(docs, terms, p, dec);
    }
    forall d | 0 <= d < |docs| && PhraseAt(docs[d], terms, p - Start(docs, d), dec)
      ensures PhraseHitOf(docs, terms, p, dec)
    {
      PhraseAtIsHit(docs, terms, d, p - Start(docs, d), dec);
    }
  }

  lemma DocumentOfPhrase(docs: seq<Document>, terms: seq<string>, p: int, dec: Decoration) returns (d: nat)
    requires terms != [] && PhraseHitOf(docs, terms, p, dec)
    ensures d < |docs| && PhraseAt(docs[d], terms, p - Start(docs, d), dec)
    ensures Start(docs, d) <= p < End(docs, d)
  {
    hide Start, Hits;
    HitsAre(docs, terms[0]);
    assert Hit(p + 0, dec) in Hits(docs, terms[0]);
    d :| IsHitIn(docs, d, terms[0], Hit(p + 0, dec));
    forall i | 0 <= i < |terms|
      ensures Start(docs, d) <= p + i < End(docs, d)
      ensures docs[d][p - Start(docs, d) + i] == Token(terms[i], dec)
    {
      HitsShareDocument(docs, terms, p, dec, d, i);
    }
    HitsShareDocument(docs, terms, p, dec, d, |terms| - 1);
  }

  lemma PhraseAtIsHit(docs: seq<Document>, terms: seq<string>, d: nat, k: int, dec: Decoration)
    requires terms != [] && d < |docs| && PhraseAt(docs[d], terms, k, dec)
    ensures PhraseHitOf(docs, terms, Start(docs, d) + k, dec)
    ensures Start(docs, d) <= Start(docs, d) + k < End(docs, d)
  {
    hide Start, Hits;
    assert docs[d][k + 0] == Token(terms[0], dec);
    forall i | 0 <= i < |terms| ensures Hit(Start(docs, d) + k + i, dec) in Hits(docs, terms[i]) {
      HitsAre(docs, terms[i]);
      assert IsHitIn(docs, d, terms[i], Hit(Start(docs, d) + k + i, dec));
    }
  }

  ghost predicate NoWordFrom(hits: seq<Hit>, location: int) {
    forall h :: h in hits && IsWordHit(h) ==> h.pos < location
  }

  lemma NoWordNoHit(hits: seq<Hit>, location: int, dec: Decoration)
    requires NoWordFrom(hits, location) && IsField(dec)
    ensures Hit(location, dec) !in hits
    ensures forall later :: location <= later ==> NoWordFrom(hits, later)
  {
  }

  // what a seek to an exact position tells
  lemma ScanFinds(hits: seq<Hit>, location: int, dec: Decoration)
    requires Increasing(hits) && IsField(dec)
    ensures var r := ScanFrom(hits, 0, location);
            && (Hit(location, dec) in hits <==> r < |hits| && hits[r].pos == location && hits[r].dec == dec)
            && (r == |hits| ==> NoWordFrom(hits, location))
  {
    var r := ScanFrom(hits, 0, location);
    if Hit(location, dec) in hits {
      var j :| 0 <= j < |hits| && hits[j] == Hit(location, dec);
      assert !(0 <= j < r);
      assert r < |hits|;
      assert !(r < j);
    }
  }

  lemma {:induction false} ScanReaches(hits: seq<Hit>, i: nat, location: int, h: Hit)
    requires Increasing(hits) && i <= |hits|
    requires h in hits && IsWordHit(h) && location <= h.pos
    requires i > 0 ==> hits[i - 1].pos < h.pos
    ensures ScanFrom(hits, i, location) < |hits|
    ensures hits[ScanFrom(hits, i, location)].pos <= h.pos
  {
    var j :| 0 <= j < |hits| && hits[j] == h;
    assert i <= j;
    assert !(i <= j < ScanFrom(hits, i, location));
  }

  // between two places of the first word's cursor there is no phrase
  lemma NoPhraseBeforeScan(docs: seq<Document>, terms: seq<string>, i: nat, location: int)
    requires terms != [] && i <= |Hits(docs, terms[0])|
    ensures var hits := Hits(docs, terms[0]);
            var r := ScanFrom(hits, i, location);
            var lo := if i == 0 || hits[i - 1].pos < location then location else hits[i - 1].pos + 1;
            if r < |hits| then lo <= hits[r].pos && NoPhraseIn(docs, terms, lo, hits[r].pos)
            else NoPhraseFrom(docs, terms, lo)
  {
    hide Hits, ScanFrom;
    HitsAre(docs, terms[0]);
    var hits := Hits(docs, terms[0]);
    var lo := if i == 0 || hits[i - 1].pos < location then location else hits[i - 1].pos + 1;
    forall p, dec | lo <= p && PhraseHitOf(docs, terms, p, dec)
      ensures ScanFrom(hits, i, location) < |hits| && hits[ScanFrom(hits, i, location)].pos <= p
    {
      assert Hit(p + 0, dec) in hits;
      ScanReaches(hits, i, location, Hit(p, dec));
    }
  }

  // a failed anchor: the phrase does not start there in any field
  lemma NotThisAnchor(docs: seq<Document>, terms: seq<string>, here: nat)
    requires terms != [] && here < |Hits(docs, terms[0])|
    requires var h := Hits(docs, terms[0])[here]; !PhraseHitOf(docs, terms, h.pos, h.dec)
    ensures !PhraseHit(docs, terms, Hits(docs, terms[0])[here].pos)
  {
    hide Hits;
    HitsAre(docs, terms[0]);
    var hits := Hits(docs, terms[0]);
    var p := hits[here].pos;
    forall dec ensures !PhraseHitOf(docs, terms, p, dec) {
      assert PhraseHitOf(docs, terms, p, dec) ==> Hit(p + 0, dec) in hits;
    }
  }

  // one word of the tail: sought to the position where the phrase wants it
  method AlignsAt(child: ISRWord, want: int, dec: Decoration) returns (ok: bool)
    requires child.Valid() && Increasing(child.hits) && IsField(dec)
    requires !child.IsValid() ==> NoWordFrom(child.hits, want)
    modifies child
    ensures child.Valid()
    ensures ok <==> Hit(want, dec) in child.hits
    ensures ok ==> child.IsValid()
    ensures !child.IsValid() ==> NoWordFrom(child.hits, want)
  {
    hide ScanFrom, Decodes, DecodeDecoration, NoWordFrom;
    ScanFinds(child.hits, want, dec);
    if !child.IsValid() {
      NoWordNoHit(child.hits, want, dec);
    }
    var found := child.Seek(want);
    if !found {
      return false;
    }
    child.DecorationOfHit();
    return child.GetStartLocation() == want && child.GetCurrentDecoration() == dec;
  }

  class ISRPhrase {
    const children: seq<ISRWord>
    ghost const terms: seq<string>
    var currentStart: int
    var currentEnd: int
    var currentDecoration: Decoration
    var valid: bool

    // the fixed part: one distinct word cursor per term
    ghost predicate Wired(docs: seq<Document>) {
      && |children| == |terms|
      && (forall i, j :: 0 <= i < j < |children| ==> children[i] != children[j])
      && (forall i :: 0 <= i < |children| ==> children[i].hits == Hits(docs, terms[i]))
    }

    ghost predicate WordsValid()
      reads children
    {
      forall i :: 0 <= i < |children| ==> children[i].Valid()
    }

    // an exhausted later word has nothing left for this anchor or any later one
    ghost predicate TailReady(anchor: int)
      reads children
    {
      forall i :: 1 <= i < |children| && !children[i].IsValid() ==> NoWordFrom(children[i].hits, anchor + i)
    }

    ghost predicate Valid(docs: seq<Document>)
      reads this, children
    {
      && Wired(docs) && WordsValid()
      && (!valid && children != [] ==> !children[0].IsValid())
      && (valid ==>
            && children != []
            && (forall i :: 0 <= i < |children| ==> children[i].IsValid())
            && currentStart == children[0].currentAbsolutePos
            && currentEnd == currentStart + |children| - 1
            && PhraseHitOf(docs, terms, currentStart, currentDecoration))
    }

    constructor (ghost docs: seq<Document>, children: seq<ISRWord>, ghost terms: seq<string>)
      requires |children| == |terms|
      requires forall i, j :: 0 <= i < j < |children| ==> children[i] != children[j]
      requires forall i :: 0 <= i < |children| ==>
                 && children[i].Valid()
                 && children[i].hits == Hits(docs, terms[i])
                 && children[i].currentPostIdx == 0
      modifies children
      ensures Valid(docs) && this.terms == terms && this.children == children
      ensures terms == [] ==> !valid
      ensures terms != [] ==> if valid then NoPhraseIn(docs, terms, 0, currentStart) else NoPhraseFrom(docs, terms, 0)
    {
      hide Hits;
      this.children := children;
      this.terms := terms;
      currentStart, currentEnd, currentDecoration, valid := 0, 0, Other, false;
      new;
      forall i | 1 <= i < |children| && !children[i].IsValid()
        ensures NoWordFrom(children[i].hits, children[0].currentAbsolutePos + i)
      {
        assert children[i].hits == [];
      }
      if children == [] {
        return;
      }
      FirstWordOnLine(docs);
      var _ := FindFromCurrent(docs);
    }

    lemma FirstWordOnLine(docs: seq<Document>)
      requires Wired(docs) && children != [] && children[0].Valid() && children[0].currentPostIdx == 0
      ensures children[0].IsValid() ==> NoPhraseIn(docs, terms, 0, children[0].currentAbsolutePos)
      ensures !children[0].IsValid() ==> NoPhraseFrom(docs, terms, 0)
    {
      hide Hits;
      HitsAre(docs, terms[0]);
      assert children[0].hits != [] ==> children[0].hits[0] in children[0].hits;
      NoPhraseBeforeScan(docs, terms, 0, 0);
    }

    predicate IsValid()
      reads this
    {
      valid
    }

    // the inner loop: does the tail of the phrase line up with this anchor?
    method TailAligns(ghost docs: seq<Document>, anchor: int, dec: Decoration) returns (ok: bool)
      requires Wired(docs) && children != [] && WordsValid() && TailReady(anchor) && IsField(dec)
      requires Hit(anchor, dec) in Hits(docs, terms[0])
      modifies children[1..]
      ensures WordsValid() && TailReady(anchor)
      ensures ok <==> PhraseHitOf(docs, terms, anchor, dec)
      ensures ok ==> forall i :: 1 <= i < |children| ==> children[i].IsValid()
    {
      hide Hits, NoWordFrom, Increasing, ISRWord.Valid;
      for i := 1 to |children|
        invariant WordsValid() && TailReady(anchor)
        invariant forall k :: 0 <= k < i ==> Hit(anchor + k, dec) in children[k].hits
        invariant forall k :: 1 <= k < i ==> children[k].IsValid()
      {
        HitsIncrease(docs, terms[i]);
        var found := AlignsAt(children[i], anchor + i, dec);
        if !found {
          return false;
        }
      }
      return true;
    }

    // leaves a failed anchor for the first word's next hit
    method NextAnchor(ghost docs: seq<Document>, first: ISRWord) returns (more: bool)
      requires Wired(docs) && children != [] && first == children[0] && WordsValid()
      requires first.IsValid() && TailReady(first.currentAbsolutePos)
      requires !PhraseHit(docs, terms, first.currentAbsolutePos)
      modifies first
      ensures WordsValid() && more == first.IsValid()
      ensures var anchor := old(first.currentAbsolutePos);
              if more then
                && TailReady(first.currentAbsolutePos)
                && anchor < first.currentAbsolutePos
                && NoPhraseIn(docs, terms, anchor, first.currentAbsolutePos)
              else NoPhraseFrom(docs, terms, anchor)
      ensures first.currentPostIdx > old(first.currentPostIdx)
    {
      hide Hits, ScanFrom, Decodes, NoWordFrom, PhraseHit;
      var anchor := first.currentAbsolutePos;
      NoPhraseBeforeScan(docs, terms, first.currentPostIdx + 1, anchor);
      more := first.Next();
      forall i | 1 <= i < |children| && !children[i].IsValid()
        ensures NoWordFrom(children[i].hits, anchor + i)
        ensures more ==> NoWordFrom(children[i].hits, first.currentAbsolutePos + i)
      {
        assert children[i] != first;
        NoWordNoHit(children[i].hits, anchor + i, Body);
      }
    }

    // from the first word's current position on, the first position where the phrase lines up
    method FindFromCurrent(ghost docs: seq<Document>) returns (ok: bool)
      requires Wired(docs) && WordsValid() && children != []
      requires children[0].IsValid() ==> TailReady(children[0].currentAbsolutePos)
      modifies this, children
      ensures Valid(docs)
      ensures ok == valid
      ensures old(children[0].IsValid()) ==>
                var anchor := old(children[0].currentAbsolutePos);
                if ok then anchor <= currentStart && NoPhraseIn(docs, terms, anchor, currentStart)
                else NoPhraseFrom(docs, terms, anchor)
      ensures !old(children[0].IsValid()) ==> !ok
    {
      hide Hits, ScanFrom, Decodes, DecodeDecoration, PhraseHitOf, PhraseHit, TailReady;
      ghost var from := children[0].currentAbsolutePos;
      while children[0].IsValid()
        invariant WordsValid()
        invariant children[0].IsValid() ==>
                    && TailReady(children[0].currentAbsolutePos)
                    && from <= children[0].currentAbsolutePos
                    && NoPhraseIn(docs, terms, from, children[0].currentAbsolutePos)
        invariant !children[0].IsValid() && old(children[0].IsValid()) ==> NoPhraseFrom(docs, terms, from)
        decreases |children[0].hits| - children[0].currentPostIdx
      {
        var first := children[0];
        var anchor := first.GetStartLocation();
        var dec := first.GetCurrentDecoration();
        CurrentWordIsHit(docs, first);
        first.DecorationOfHit();
        ok := TailAligns(docs, anchor, dec);
        if ok {
          currentStart := anchor;
          currentEnd := anchor + |children| - 1;
          currentDecoration := dec;
          valid := true;
          return true;
        }
        NotThisAnchor(docs, terms, first.currentPostIdx);
        var more := NextAnchor(docs, first);
        if !more {
          break;
        }
      }
      valid := false;
      return false;
    }

    lemma CurrentWordIsHit(docs: seq<Document>, first: ISRWord)
      requires Wired(docs) && children != [] && first == children[0] && first.Valid() && first.IsValid()
      ensures Hit(first.currentAbsolutePos, first.GetCurrentDecoration()) in Hits(docs, terms[0])
      ensures IsField(first.GetCurrentDecoration())
    {
      hide Hits, AbsolutePos;
      HitsAre(docs, terms[0]);
      first.DecorationOfHit();
      assert first.hits[first.currentPostIdx] in first.hits;
    }

    // after a failed anchor, nothing before the first word's next hit
    method Next(ghost docs: seq<Document>) returns (ok: bool)
      requires Valid(docs)
      modifies this, children
      ensures Valid(docs) && ok == valid
      ensures !old(valid) ==> !ok
      ensures old(valid) ==>
                var next := old(currentStart) + 1;
                if ok then next <= currentStart && NoPhraseIn(docs, terms, next, currentStart)
                else NoPhraseFrom(docs, terms, next)
    {
      hide Hits, ScanFrom, Decodes, DecodeDecoration, PhraseHitOf;
      if !valid {
        return false;
      }
      NoPhraseBeforeScan(docs, terms, children[0].currentPostIdx + 1, children[0].currentAbsolutePos);
      var more := children[0].Next();
      if !more {
        valid := false;
        return false;
      }
      ok := FindFromCurrent(docs);
    }

    // the first match at or after the location
    method Seek(ghost docs: seq<Document>, location: int) returns (ok: bool)
      requires Valid(docs)
      modifies this, children
      ensures Valid(docs) && ok == valid
      ensures !old(valid) ==> !ok
      ensures old(valid) ==>
                if ok then location <= currentStart && NoPhraseIn(docs, terms, location, currentStart)
                else NoPhraseFrom(docs, terms, location)
    {
      hide Hits;
      if |children| == 0 {
        valid := false;
        return false;
      }
      NoPhraseBeforeScan(docs, terms, 0, location);
      var more := children[0].Seek(location);
      if !more {
        valid := false;
        return false;
      }
      ok := FindFromCurrent(docs);
    }
  }
}
