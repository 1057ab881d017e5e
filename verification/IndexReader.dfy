/** The query-time index: document ranges and posting lists, checkpoint search,
    and the per-document field queries. */
module IndexReading {
  import opened Posting
  import opened Positions

  datatype Range = Range(start: int, end: int)

  // what the reader serves: the range of each document and the list of each term
  datatype Index = Index(ranges: seq<Range>, lists: map<string, PostingList>)

  ghost predicate ServesTerm(ix: Index, docs: seq<Document>, term: string) {
    if Hits(docs, term) == [] then term !in ix.lists
    else term in ix.lists && Decodes(ix.lists[term], Hits(docs, term))
  }

  ghost predicate ServesRange(ix: Index, docs: seq<Document>, d: nat)
    requires d < |docs| == |ix.ranges|
  {
    ix.ranges[d] == Range(Start(docs, d), End(docs, d))
  }

  const INT_MAX := 0x7fff_ffff

  // the document ranges of a corpus whose position line fits an int
  ghost predicate HasRanges(ix: Index, docs: seq<Document>) {
    && Start(docs, |docs|) <= INT_MAX
    && |ix.ranges| == |docs|
    && (forall d :: 0 <= d < |docs| ==> ServesRange(ix, docs, d))
  }

  // an index of a corpus
  ghost predicate Serves(ix: Index, docs: seq<Document>) {
    HasRanges(ix, docs) && forall term :: ServesTerm(ix, docs, term)
  }

  // as much of an index as some terms need
  ghost predicate ServesTerms(ix: Index, docs: seq<Document>, terms: set<string>) {
    HasRanges(ix, docs) && forall term :: term in terms ==> ServesTerm(ix, docs, term)
  }

  lemma ServesAnyTerms(ix: Index, docs: seq<Document>, terms: set<string>)
    requires Serves(ix, docs)
    ensures ServesTerms(ix, docs, terms) && HasRanges(ix, docs)
  {
    hide HasRanges, ServesTerm;
  }

  // PostingListView::findCheckpoint: the last checkpoint at or before the target
  method FindCheckpoint(pl: PostingList, target: int)
    returns (found: bool, absolutePos: int, postIndex: int)
    requires |pl.seekAbsolutes| == |pl.seekIndices|
    requires forall i, j :: 0 <= i < j < |pl.seekAbsolutes| ==> pl.seekAbsolutes[i] < pl.seekAbsolutes[j]
    ensures !found ==> forall k :: 0 <= k < |pl.seekAbsolutes| ==> target < pl.seekAbsolutes[k]
    ensures !found ==> absolutePos == 0 && postIndex == 0
    ensures found ==> exists k ::
              && 0 <= k < |pl.seekAbsolutes|
              && absolutePos == pl.seekAbsolutes[k] <= target
              && postIndex == pl.seekIndices[k]
              && forall j :: k < j < |pl.seekAbsolutes| ==> target < pl.seekAbsolutes[j]
  {
    var lo, hi, best := 0, |pl.seekAbsolutes| - 1, -1;
    while lo <= hi
      invariant 0 <= lo <= hi + 1 <= |pl.seekAbsolutes|
      invariant best == lo - 1
      invariant best >= 0 ==> pl.seekAbsolutes[best] <= target
      invariant forall k :: hi < k < |pl.seekAbsolutes| ==> target < pl.seekAbsolutes[k]
      decreases hi - lo
    {
      var mid := (lo + hi) / 2;
      if pl.seekAbsolutes[mid] <= target {
        best := mid;
        lo := mid + 1;
      } else {
        hi := mid - 1;
      }
    }
    if best == -1 {
      return false, 0, 0;
    }
    return true, pl.seekAbsolutes[best], pl.seekIndices[best];
  }

  // a checkpoint is a place on the list from which to go on: a post index with
  // its exact absolute position, and all checkpoints in order
  lemma CheckpointsAreOnList(pl: PostingList, hits: seq<Hit>)
    requires Decodes(pl, hits)
    ensures forall i, j :: 0 <= i < j < |pl.seekAbsolutes| ==> pl.seekAbsolutes[i] < pl.seekAbsolutes[j]
    ensures forall k :: 0 <= k < |pl.seekAbsolutes| ==>
              && 0 <= pl.seekIndices[k] < |hits|
              && pl.seekAbsolutes[k] == hits[pl.seekIndices[k]].pos
  {
    hide AbsolutePos;
    forall i | 0 <= i < |pl.seekAbsolutes|
      ensures 0 <= pl.seekIndices[i] < |hits|
      ensures pl.seekAbsolutes[i] == hits[pl.seekIndices[i]].pos
    {
      assert CHECKPOINT_STRIDE * (i + 1) <= CHECKPOINT_STRIDE * (|hits| / CHECKPOINT_STRIDE) <= |hits|;
    }
    forall i, j | 0 <= i < j < |pl.seekAbsolutes|
      ensures pl.seekAbsolutes[i] < pl.seekAbsolutes[j]
    {
      assert pl.seekIndices[i] < pl.seekIndices[j];
    }
  }

  // the binary search of GetCurrentDocId over the document ranges
  method DocumentAt(ix: Index, ghost docs: seq<Document>, pos: int) returns (d: int)
    requires HasRanges(ix, docs)
    ensures d == -1 || (0 <= d < |docs| && Start(docs, d) <= pos <= End(docs, d))
    ensures d == -1 ==> forall k :: 0 <= k < |docs| ==> !(Start(docs, k) <= pos <= End(docs, k))
  {
    hide ServesTerm, Start, End;
    var left, right := 0, |ix.ranges| - 1;
    while left <= right
      invariant 0 <= left <= right + 1 <= |docs|
      invariant forall k :: 0 <= k < left ==> End(docs, k) < pos
      invariant forall k :: right < k < |docs| ==> pos < Start(docs, k)
      decreases right - left
    {
      var mid := (left + right) / 2;
      assert ServesRange(ix, docs, mid);
      var range := ix.ranges[mid];
      if pos < range.start {
        forall k | mid < k < |docs| ensures pos < Start(docs, k) {
          RangesAreDisjoint(docs, mid, k);
        }
        right := mid - 1;
      } else if pos > range.end {
        forall k | 0 <= k < mid ensures End(docs, k) < pos {
          RangesAreDisjoint(docs, k, mid);
        }
        left := mid + 1;
      } else {
        return mid;
      }
    }
    return -1;
  }

  // at most one document holds a position
  lemma DocumentIsUnique(docs: seq<Document>, pos: int, d: nat, e: nat)
    requires d < |docs| && Start(docs, d) <= pos <= End(docs, d)
    requires e < |docs| && Start(docs, e) <= pos <= End(docs, e)
    ensures d == e
  {
    hide Start, End;
    if d < e {
      RangesAreDisjoint(docs, d, e);
    } else if e < d {
      RangesAreDisjoint(docs, e, d);
    }
  }

  // the first hit of a term is a word, never an end of document
  lemma FirstHitIsWord(docs: seq<Document>, term: string)
    requires Hits(docs, term) != []
    ensures IsWordHit(Hits(docs, term)[0])
  {
    hide Hits, Start;
    HitsAre(docs, term);
    var hits := Hits(docs, term);
    assert hits[0] in hits;
    var d: nat :| IsHitIn(docs, d, term, hits[0]);
    assert hits[0].dec != Eod ==> docs[d][hits[0].pos - Start(docs, d)].term == term;
    var k :| 0 <= k < |docs[d]| && docs[d][k].term == term;
    var h := Hit(Start(docs, d) + k, docs[d][k].dec);
    assert IsHitIn(docs, d, term, h);
    assert h in hits;
    assert hits[0].pos <= h.pos < End(docs, d);
  }

  // the positions in [start, end) that carry a decoration, in list order
  function Select(hits: seq<Hit>, start: int, end: int, dec: Decoration): seq<int> {
    if hits == [] then []
    else
      var last := hits[|hits| - 1];
      Select(hits[..|hits| - 1], start, end, dec) +
      if start <= last.pos < end && last.dec == dec then [last.pos] else []
  }

  lemma {:induction false} SelectNothing(hits: seq<Hit>, start: int, end: int, dec: Decoration, i: nat, j: nat)
    requires i <= j <= |hits|
    requires forall k :: i <= k < j ==> !(start <= hits[k].pos < end)
    ensures Select(hits[..j], start, end, dec) == Select(hits[..i], start, end, dec)
  {
    if i < j {
      SelectNothing(hits, start, end, dec, i, j - 1);
      assert hits[..j][..j - 1] == hits[..j - 1];
    }
  }

  // walk_field_posts: from the checkpoint, or from post 0 when there is none
  method WalkFieldPosts(pl: PostingList, start: int, end: int, dec: Decoration, ghost hits: seq<Hit>)
    returns (positions: seq<int>)
    requires Decodes(pl, hits)
    ensures positions == Select(hits, start, end, dec)
  {
    hide Select;
    CheckpointsAreOnList(pl, hits);
    var hasCheckpoint, absolutePos, idx := FindCheckpoint(pl, start);
    if !hasCheckpoint {
      idx := 0;
      absolutePos := DecodeDelta(pl.posts[0]);
      assert absolutePos == AbsolutePos(pl.posts, 0);
    }
    positions := [];
    assert hits[..0] == [];
    assert Select([], start, end, dec) == [] by { SelectOfNone(start, end, dec); }
    SelectNothing(hits, start, end, dec, 0, idx);
    while idx < |pl.posts| && absolutePos < end
      invariant 0 <= idx <= |hits|
      invariant idx < |hits| ==> absolutePos == hits[idx].pos
      invariant positions == Select(hits[..idx], start, end, dec)
    {
      SelectNext(hits, start, end, dec, idx);
      if absolutePos >= start && DecodeDecoration(pl.posts[idx]) == dec {
        positions := positions + [absolutePos];
      }
      idx := idx + 1;
      if idx < |pl.posts| {
        absolutePos := absolutePos + DecodeDelta(pl.posts[idx]);
        assert absolutePos == AbsolutePos(pl.posts, idx);
      }
    }
    SelectNothing(hits, start, end, dec, idx, |hits|);
    assert hits[..|hits|] == hits;
  }

  lemma SelectOfNone(start: int, end: int, dec: Decoration)
    ensures Select([], start, end, dec) == []
  {
  }

  lemma SelectNext(hits: seq<Hit>, start: int, end: int, dec: Decoration, i: nat)
    requires i < |hits|
    ensures Select(hits[..i + 1], start, end, dec) ==
            Select(hits[..i], start, end, dec) +
            if start <= hits[i].pos < end && hits[i].dec == dec then [hits[i].pos] else []
  {
    assert hits[..i + 1][..i] == hits[..i];
  }

  ghost predicate StrictlyIncreasing(s: seq<int>) {
    forall i, j :: 0 <= i < j < |s| ==> s[i] < s[j]
  }

  lemma {:induction false} SelectIs(hits: seq<Hit>, start: int, end: int, dec: Decoration)
    requires Increasing(hits)
    ensures StrictlyIncreasing(Select(hits, start, end, dec))
    ensures forall p :: p in Select(hits, start, end, dec) <==> start <= p < end && Hit(p, dec) in hits
  {
    if hits != [] {
      var n := |hits| - 1;
      SelectIs(hits[..n], start, end, dec);
      var last := hits[n];
      var tail := if start <= last.pos < end && last.dec == dec then [last.pos] else [];
      var before := Select(hits[..n], start, end, dec);
      assert hits == hits[..n] + [last];
      forall p ensures p in before + tail <==> start <= p < end && Hit(p, dec) in hits {
        assert Hit(p, dec) in hits <==> Hit(p, dec) in hits[..n] || Hit(p, dec) == last;
      }
      forall i | 0 <= i < |before| ensures before[i] < last.pos {
        assert before[i] in before;
      }
    }
  }

  lemma LastIsGreatest(s: seq<int>)
    requires StrictlyIncreasing(s) && s != []
    ensures var n := |s| - 1;
            && s == s[..n] + [s[n]] && s[n] in s
            && (forall p :: p in s ==> p <= s[n])
            && (forall p :: p in s[..n] <==> p in s && p < s[n])
  {
    var n := |s| - 1;
    forall p ensures p in s[..n] <==> p in s && p < s[n] {
      assert s == s[..n] + [s[n]];
    }
  }

  ghost predicate SameMembers(a: seq<int>, b: seq<int>) {
    forall p :: p in a <==> p in b
  }

  lemma LastsAgree(a: seq<int>, b: seq<int>)
    requires StrictlyIncreasing(a) && StrictlyIncreasing(b) && a != [] && b != []
    requires SameMembers(a, b)
    ensures a[|a| - 1] == b[|b| - 1]
    ensures SameMembers(a[..|a| - 1], b[..|b| - 1])
  {
    LastIsGreatest(a);
    LastIsGreatest(b);
    assert a[|a| - 1] in b && b[|b| - 1] in a;
  }

  lemma {:induction false} IncreasingIsUnique(a: seq<int>, b: seq<int>)
    requires StrictlyIncreasing(a) && StrictlyIncreasing(b)
    requires SameMembers(a, b)
    ensures a == b
  {
    if a != [] || b != [] {
      var e := if a != [] then a[0] else b[0];
      assert e in a || e in b;
      assert e in a && e in b;
      hide SameMembers;
      LastsAgree(a, b);
      var a', b' := a[..|a| - 1], b[..|b| - 1];
      IncreasingIsUnique(a', b');
      assert a == a' + [a[|a| - 1]] && b == b' + [b[|b| - 1]];
    }
  }

  // the places of a token in a document that starts at position base
  function Places(doc: Document, base: int, token: Token): seq<int> {
    if doc == [] then []
    else Places(doc[..|doc| - 1], base, token) + if doc[|doc| - 1] == token then [base + |doc| - 1] else []
  }

  lemma PlacesAre(doc: Document, base: int, token: Token)
    ensures StrictlyIncreasing(Places(doc, base, token))
    ensures forall p :: p in Places(doc, base, token) <==> base <= p < base + |doc| && doc[p - base] == token
    ensures |Places(doc, base, token)| == multiset(doc)[token]
  {
    PlacesHold(doc, base, token);
    PlacesCount(doc, base, token);
  }

  lemma {:induction false} PlacesHold(doc: Document, base: int, token: Token)
    ensures StrictlyIncreasing(Places(doc, base, token))
    ensures forall p :: p in Places(doc, base, token) <==> base <= p < base + |doc| && doc[p - base] == token
  {
    if doc != [] {
      var n := |doc| - 1;
      PlacesHold(doc[..n], base, token);
      PlacesGrow(doc, base, token);
      hide Places, StrictlyIncreasing;
      IncreasingGrows(Places(doc[..n], base, token), base + n);
    }
  }

  lemma {:induction false} PlacesCount(doc: Document, base: int, token: Token)
    ensures |Places(doc, base, token)| == multiset(doc)[token]
  {
    if doc != [] {
      var n := |doc| - 1;
      PlacesCount(doc[..n], base, token);
      PlacesGrow(doc, base, token);
      hide Places;
      assert doc == doc[..n] + [doc[n]];
    }
  }

  lemma PlacesGrow(doc: Document, base: int, token: Token)
    requires doc != []
    ensures var n := |doc| - 1;
            Places(doc, base, token) == Places(doc[..n], base, token) + if doc[n] == token then [base + n] else []
  {
  }

  lemma IncreasingGrows(s: seq<int>, last: int)
    requires StrictlyIncreasing(s) && forall p :: p in s ==> p < last
    ensures StrictlyIncreasing(s + [last])
  {
    forall i | 0 <= i < |s| ensures s[i] < last {
      assert s[i] in s;
    }
  }

  // the walk over one document's range finds exactly the places of the token
  lemma SelectIsPlaces(docs: seq<Document>, d: nat, term: string, dec: Decoration)
    requires d < |docs|
    ensures Select(Hits(docs, term), Start(docs, d), End(docs, d), dec) ==
            Places(docs[d], Start(docs, d), Token(term, dec))
  {
    hide Hits, Select, Places, Start;
    HitsAre(docs, term);
    var start, end := Start(docs, d), End(docs, d);
    var selected := Select(Hits(docs, term), start, end, dec);
    SelectIs(Hits(docs, term), start, end, dec);
    PlacesAre(docs[d], start, Token(term, dec));
    forall p ensures p in selected <==> start <= p < end && docs[d][p - start] == Token(term, dec) {
      if start <= p < end {
        HitWithinDocument(docs, d, term, Hit(p, dec));
        assert Hit(p, dec) in Hits(docs, term) <==> IsHit(docs, term, Hit(p, dec));
      }
    }
    IncreasingIsUnique(selected, Places(docs[d], start, Token(term, dec)));
  }

  lemma HitWithinDocument(docs: seq<Document>, d: nat, term: string, h: Hit)
    requires d < |docs| && Start(docs, d) <= h.pos < End(docs, d)
    ensures IsHit(docs, term, h) <==> docs[d][h.pos - Start(docs, d)] == Token(term, h.dec)
  {
    hide Start;
    if IsHit(docs, term, h) {
      var e: nat :| IsHitIn(docs, e, term, h);
      assert Start(docs, e) <= h.pos <= End(docs, e);
      DocumentIsUnique(docs, h.pos, d, e);
    }
    if docs[d][h.pos - Start(docs, d)] == Token(term, h.dec) {
      assert IsField(docs[d][h.pos - Start(docs, d)].dec);
      assert IsHitIn(docs, d, term, h);
    }
  }

  method GetFieldPositions(ix: Index, ghost docs: seq<Document>, docId: int, term: string, dec: Decoration)
    returns (positions: seq<int>)
    requires HasRanges(ix, docs) && ServesTerm(ix, docs, term)
    ensures positions == if 0 <= docId < |docs| then Places(docs[docId], Start(docs, docId), Token(term, dec)) else []
  {
    hide Select, Places, Decodes;
    positions := [];
    if docId < 0 || docId >= |ix.ranges| {
      return;
    }
    SelectIsPlaces(docs, docId, term, dec);
    assert ServesRange(ix, docs, docId);
    if term !in ix.lists {
      SelectOfNone(Start(docs, docId), End(docs, docId), dec);
      return;
    }
    var range := ix.ranges[docId];
    positions := WalkFieldPosts(ix.lists[term], range.start, range.end, dec, Hits(docs, term));
  }

  method GetFieldTermFrequency(ix: Index, ghost docs: seq<Document>, docId: int, term: string, dec: Decoration)
    returns (count: int)
    requires HasRanges(ix, docs) && ServesTerm(ix, docs, term)
    ensures count == if 0 <= docId < |docs| then multiset(docs[docId])[Token(term, dec)] else 0
  {
    hide Places;
    var positions := GetFieldPositions(ix, docs, docId, term, dec);
    if 0 <= docId < |ix.ranges| {
      PlacesAre(docs[docId], Start(docs, docId), Token(term, dec));
    }
    return |positions|;
  }
}
