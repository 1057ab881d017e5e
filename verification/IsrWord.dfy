/** ISRWord: the cursor over one posting list, and ISREndDoc: the cursor over the
    document ranges. */
module WordReading {
  import opened Posting
  import opened Positions
  import opened IndexReading

  // the slow scan: the first word hit at or after index i with a position >= location
  function ScanFrom(hits: seq<Hit>, i: nat, location: int): (r: nat)
    requires i <= |hits|
    ensures i <= r <= |hits|
    ensures forall k :: i <= k < r ==> !(IsWordHit(hits[k]) && location <= hits[k].pos)
    ensures r < |hits| ==> IsWordHit(hits[r]) && location <= hits[r].pos
    decreases |hits| - i
  {
    if i == |hits| || (IsWordHit(hits[i]) && location <= hits[i].pos) then i
    else ScanFrom(hits, i + 1, location)
  }

  lemma {:induction false} ScanIsFirst(hits: seq<Hit>, i: nat, location: int, r: nat)
    requires i <= r <= |hits|
    requires forall k :: i <= k < r ==> !(IsWordHit(hits[k]) && location <= hits[k].pos)
    requires r < |hits| ==> IsWordHit(hits[r]) && location <= hits[r].pos
    ensures ScanFrom(hits, i, location) == r
  {
    var s := ScanFrom(hits, i, location);
    assert s < r ==> i <= s < r;
    assert r < s ==> i <= r < s;
  }

  class ISRWord {
    const isValid: bool
    const postingList: PostingList
    ghost const term: string
    ghost const hits: seq<Hit>
    var currentPostIdx: int
    var currentAbsolutePos: int

    ghost predicate Valid()
      reads this
    {
      && (isValid <==> hits != [])
      && (isValid ==> Decodes(postingList, hits) && IsWordHit(hits[0]))
      && |postingList.posts| == |hits|
      && 0 <= currentPostIdx <= |hits|
      && (currentPostIdx < |hits| ==>
            && currentAbsolutePos == hits[currentPostIdx].pos
            && IsWordHit(hits[currentPostIdx]))
    }

    constructor (ix: Index, ghost docs: seq<Document>, term: string)
      requires ServesTerm(ix, docs, term)
      ensures Valid() && this.term == term && hits == Hits(docs, term)
      ensures currentPostIdx == 0
      ensures IsValid() <==> hits != []
    {
      hide Hits;
      this.term := term;
      hits := Hits(docs, term);
      isValid := term in ix.lists;
      var pl := if term in ix.lists then ix.lists[term] else EMPTY_LIST;
      postingList := pl;
      currentPostIdx := 0;
      currentAbsolutePos := if term in ix.lists then DecodeDelta(pl.posts[0]) else 0;
      new;
      if hits != [] {
        FirstHitIsWord(docs, term);
        assert AbsolutePos(postingList.posts, 0) == hits[0].pos;
      }
    }

    predicate IsValid()
      reads this
    {
      isValid && currentPostIdx < |postingList.posts|
    }

    function GetStartLocation(): int
      reads this
    {
      currentAbsolutePos
    }

    function GetCurrentDecoration(): Decoration
      requires Valid() && IsValid()
      reads this
    {
      DecodeDecoration(postingList.posts[currentPostIdx])
    }

    lemma DecorationOfHit()
      requires Valid() && IsValid()
      ensures GetCurrentDecoration() == hits[currentPostIdx].dec
    {
    }

    // one step along the list, or off its end
    method Step() returns (ok: bool)
      requires isValid && Decodes(postingList, hits)
      requires 0 <= currentPostIdx < |hits| && currentAbsolutePos == hits[currentPostIdx].pos
      modifies this
      ensures currentPostIdx == old(currentPostIdx) + 1
      ensures ok <==> currentPostIdx < |hits|
      ensures ok ==> currentAbsolutePos == hits[currentPostIdx].pos
    {
      if currentPostIdx + 1 >= |postingList.posts| {
        currentPostIdx := |postingList.posts|;
        return false;
      }
      currentPostIdx := currentPostIdx + 1;
      currentAbsolutePos := currentAbsolutePos + DecodeDelta(postingList.posts[currentPostIdx]);
      assert AbsolutePos(postingList.posts, currentPostIdx) == currentAbsolutePos;
      return true;
    }

    method Next() returns (ok: bool)
      requires Valid()
      modifies this
      ensures Valid()
      ensures !old(IsValid()) ==> !ok && currentPostIdx == old(currentPostIdx)
      ensures old(IsValid()) ==>
                var next := old(currentPostIdx) + 1;
                currentPostIdx == ScanFrom(hits, next, hits[next - 1].pos)
      ensures ok <==> IsValid()
    {
      hide AbsolutePos;
      if !IsValid() {
        return false;
      }
      ghost var next := currentPostIdx + 1;
      ok := Step();
      while ok && DecodeDecoration(postingList.posts[currentPostIdx]) == Eod
        invariant next <= currentPostIdx <= |hits|
        invariant ok <==> currentPostIdx < |hits|
        invariant ok ==> currentAbsolutePos == hits[currentPostIdx].pos
        invariant forall k :: next <= k < currentPostIdx ==> !IsWordHit(hits[k])
        decreases |hits| - currentPostIdx
      {
        ok := Step();
      }
      ScanIsFirst(hits, next, hits[next - 1].pos, currentPostIdx);
    }

    // lands where the slow scan from the beginning of the list lands
    method Seek(location: int) returns (ok: bool)
      requires Valid()
      modifies this
      ensures Valid()
      ensures !old(IsValid()) ==> !ok && currentPostIdx == old(currentPostIdx)
      ensures old(IsValid()) ==> currentPostIdx == ScanFrom(hits, 0, location)
      ensures ok <==> IsValid()
    {
      hide AbsolutePos;
      if !IsValid() {
        return false;
      }
      CheckpointsAreOnList(postingList, hits);
      var hasCheckpoint, absolutePos, postIndex := FindCheckpoint(postingList, location);
      if hasCheckpoint {
        currentPostIdx, currentAbsolutePos := postIndex, absolutePos;
      } else {
        currentPostIdx, currentAbsolutePos := 0, DecodeDelta(postingList.posts[0]);
        FirstAbsolutePos();
      }
      ok := true;
      while ok && currentAbsolutePos < location
        invariant 0 <= currentPostIdx <= |hits|
        invariant ok <==> currentPostIdx < |hits|
        invariant ok ==> currentAbsolutePos == hits[currentPostIdx].pos
        invariant forall k :: 0 <= k < currentPostIdx ==> hits[k].pos < location
        decreases |hits| - currentPostIdx
      {
        ok := Step();
      }
      // doc boundaries are shared slots: skip end-of-document posts
      while ok && DecodeDecoration(postingList.posts[currentPostIdx]) == Eod
        invariant 0 <= currentPostIdx <= |hits|
        invariant ok <==> currentPostIdx < |hits|
        invariant ok ==> currentAbsolutePos == hits[currentPostIdx].pos >= location
        invariant forall k :: 0 <= k < currentPostIdx ==> hits[k].pos < location || !IsWordHit(hits[k])
        decreases |hits| - currentPostIdx
      {
        ok := Step();
      }
      ScanIsFirst(hits, 0, location, currentPostIdx);
    }

    lemma FirstAbsolutePos()
      requires hits != [] && Decodes(postingList, hits)
      ensures DecodeDelta(postingList.posts[0]) == hits[0].pos
    {
      assert AbsolutePos(postingList.posts, 0) == hits[0].pos;
    }
  }

  // the first document whose end is at or after the location, or |docs|
  function DocumentAtOrAfter(docs: seq<Document>, d: nat, location: int): (r: nat)
    requires d <= |docs|
    ensures d <= r <= |docs|
    ensures forall k :: d <= k < r ==> End(docs, k) < location
    ensures r < |docs| ==> location <= End(docs, r)
    decreases |docs| - d
  {
    if d == |docs| || location <= End(docs, d) then d else DocumentAtOrAfter(docs, d + 1, location)
  }

  lemma {:induction false} DocumentAtOrAfterIsFirst(docs: seq<Document>, location: int, r: nat)
    requires r <= |docs|
    requires forall k :: 0 <= k < r ==> End(docs, k) < location
    requires r < |docs| ==> location <= End(docs, r)
    ensures DocumentAtOrAfter(docs, 0, location) == r
  {
    hide End;
    var s := DocumentAtOrAfter(docs, 0, location);
    assert s < r ==> 0 <= s < r;
    assert r < s ==> 0 <= r < s;
  }

  class ISREndDoc {
    const ranges: seq<Range>
    ghost const docs: seq<Document>
    var currentDoc: int
    var currentStart: int
    var currentEnd: int

    ghost predicate Valid()
      reads this
    {
      && |ranges| == |docs|
      && (forall d :: 0 <= d < |docs| ==> ranges[d] == Range(Start(docs, d), End(docs, d)))
      && -1 <= currentDoc <= |docs|
      && (IsValid() ==> currentStart == Start(docs, currentDoc) && currentEnd == End(docs, currentDoc))
    }

    constructor (ix: Index, ghost docs: seq<Document>)
      requires HasRanges(ix, docs)
      ensures Valid() && this.docs == docs
      ensures currentDoc == if docs == [] then -1 else 0
    {
      forall d | 0 <= d < |docs| ensures ix.ranges[d] == Range(Start(docs, d), End(docs, d)) {
        assert ServesRange(ix, docs, d);
      }
      ranges := ix.ranges;
      this.docs := docs;
      currentDoc := if |ix.ranges| == 0 then -1 else 0;
      currentStart := if |ix.ranges| == 0 then 0 else ix.ranges[0].start;
      currentEnd := if |ix.ranges| == 0 then 0 else ix.ranges[0].end;
    }

    predicate IsValid()
      reads this
    {
      0 <= currentDoc < |ranges|
    }

    method Next() returns (ok: bool)
      requires Valid()
      modifies this
      ensures Valid()
      ensures old(IsValid()) ==> currentDoc == old(currentDoc) + 1
      ensures !old(IsValid()) ==> currentDoc == old(currentDoc)
      ensures ok <==> IsValid()
    {
      hide Start, End;
      if currentDoc < 0 || currentDoc >= |ranges| {
        return false;
      }
      currentDoc := currentDoc + 1;
      if currentDoc >= |ranges| {
        return false;
      }
      currentStart, currentEnd := ranges[currentDoc].start, ranges[currentDoc].end;
      return true;
    }

    method Seek(location: int) returns (ok: bool)
      requires Valid()
      modifies this
      ensures Valid()
      ensures currentDoc == DocumentAtOrAfter(docs, 0, location)
      ensures ok <==> currentDoc < |docs|
    {
      hide Start;
      var lo, hi, candidate := 0, |ranges| - 1, -1;
      while lo <= hi
        invariant 0 <= lo <= hi + 1 <= |docs|
        invariant forall k :: 0 <= k < lo ==> End(docs, k) < location
        invariant candidate == if hi + 1 < |docs| then hi + 1 else -1
        invariant hi + 1 < |docs| ==> location <= End(docs, hi + 1)
        decreases hi - lo
      {
        var mid := (lo + hi) / 2;
        if location <= ranges[mid].end {
          candidate := mid;
          hi := mid - 1;
        } else {
          forall k | 0 <= k < mid ensures End(docs, k) < location {
            RangesAreDisjoint(docs, k, mid);
          }
          lo := mid + 1;
        }
      }
      DocumentAtOrAfterIsFirst(docs, location, lo);
      if candidate < 0 {
        currentDoc := |ranges|;
        return false;
      }
      currentDoc := candidate;
      currentStart, currentEnd := ranges[currentDoc].start, ranges[currentDoc].end;
      return true;
    }
  }
}
