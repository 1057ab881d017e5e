/** Posts and posting lists: the 32-bit post code, the delta-encoded list with its
    seek checkpoints, and the sequence of hits that a list stands for. */
module Posting {

  const TWO_29 := 0x2000_0000
  const TWO_32 := 0x1_0000_0000

  // one seek checkpoint every CHECKPOINT_STRIDE posts
  const CHECKPOINT_STRIDE := 128

  // the decoration characters 'b', '@', '#', '$', '%', and 'x' for the codes 5 to 7
  datatype Decoration = Body | Title | Url | Anchor | Eod | Other

  function DecorationBits(dec: Decoration): nat {
    match dec
    case Body => 0
    case Title => 1
    case Url => 2
    case Anchor => 3
    case Eod => 4
    case Other => 0
  }

  // (delta << 3) | bits in 32 bits: a negative or large delta wraps
  function EncodePost(dec: Decoration, delta: int): (post: nat)
    ensures post < TWO_32
  {
    (delta * 8) % TWO_32 + DecorationBits(dec)
  }

  function DecodeDelta(post: nat): nat { post / 8 }

  function DecodeDecoration(post: nat): Decoration {
    match post % 8
    case 0 => Body
    case 1 => Title
    case 2 => Url
    case 3 => Anchor
    case 4 => Eod
    case _ => Other
  }

  // a post gives back its decoration and delta exactly when the delta fits 29 bits
  lemma PostRoundTrip(dec: Decoration, delta: int)
    requires dec != Other
    ensures DecodeDecoration(EncodePost(dec, delta)) == dec
    ensures DecodeDelta(EncodePost(dec, delta)) == delta <==> 0 <= delta < TWO_29
  {
    var q := (delta * 8) / TWO_32;
    assert (delta * 8) % TWO_32 == 8 * (delta - q * TWO_29);
    assert 0 <= delta - q * TWO_29 < TWO_29;
    assert DecodeDelta(EncodePost(dec, delta)) == delta - q * TWO_29;
  }

  // one post, decoded: an absolute position and a decoration
  datatype Hit = Hit(pos: int, dec: Decoration)

  predicate IsWordHit(h: Hit) { h.dec != Eod }

  datatype PostingList = PostingList(
    posts: seq<nat>,
    seekAbsolutes: seq<int>,
    seekIndices: seq<int>,
    lastAbsPos: int,
    numDocs: int,
    wordOccurrences: int,
    lastDocId: int)

  const EMPTY_LIST := PostingList([], [], [], 0, 0, 0, -1)

  // the absolute position of post i: the sum of the deltas up to it
  function AbsolutePos(posts: seq<nat>, i: nat): nat
    requires i < |posts|
  {
    if i == 0 then DecodeDelta(posts[0]) else AbsolutePos(posts, i - 1) + DecodeDelta(posts[i])
  }

  ghost predicate Increasing(hits: seq<Hit>) {
    forall i, j :: 0 <= i < j < |hits| ==> hits[i].pos < hits[j].pos
  }

  lemma IncreasingConcat(a: seq<Hit>, b: seq<Hit>, boundary: int)
    requires Increasing(a) && Increasing(b)
    requires forall h :: h in a ==> h.pos < boundary
    requires forall h :: h in b ==> boundary <= h.pos
    ensures Increasing(a + b)
  {
    forall i, j | 0 <= i < j < |a| + |b| ensures (a + b)[i].pos < (a + b)[j].pos {
      if i < |a| <= j {
        assert a[i] in a && b[j - |a|] in b;
      }
    }
  }

  function PreviousPos(hits: seq<Hit>, i: nat): int
    requires i <= |hits|
  {
    if i == 0 then 0 else hits[i - 1].pos
  }

  function WordCount(hits: seq<Hit>): nat {
    if hits == [] then 0
    else WordCount(hits[..|hits| - 1]) + if IsWordHit(hits[|hits| - 1]) then 1 else 0
  }

  ghost predicate ArePostsOf(posts: seq<nat>, hits: seq<Hit>) {
    && |posts| == |hits|
    && forall i :: 0 <= i < |hits| ==>
         posts[i] == EncodePost(hits[i].dec, hits[i].pos - PreviousPos(hits, i))
  }

  // checkpoint k: the index of the last post of the k-th stride, and its absolute position
  ghost predicate AreCheckpointsOf(seekAbsolutes: seq<int>, seekIndices: seq<int>, hits: seq<Hit>) {
    && |seekAbsolutes| == |seekIndices| == |hits| / CHECKPOINT_STRIDE
    && forall k :: 0 <= k < |seekAbsolutes| ==>
         && seekIndices[k] == CHECKPOINT_STRIDE * (k + 1) - 1
         && seekAbsolutes[k] == hits[CHECKPOINT_STRIDE * (k + 1) - 1].pos
  }

  // the posts and checkpoints that a builder leaves for a sequence of hits,
  // whatever the size of the positions
  ghost predicate Encodes(pl: PostingList, hits: seq<Hit>) {
    && ArePostsOf(pl.posts, hits)
    && AreCheckpointsOf(pl.seekAbsolutes, pl.seekIndices, hits)
    && pl.lastAbsPos == PreviousPos(hits, |hits|)
    && pl.wordOccurrences == WordCount(hits)
  }

  // what a reader needs: the prefix sums and decorations of the posts are the hits,
  // which increase, and every checkpoint holds an index and its exact prefix sum
  ghost predicate Decodes(pl: PostingList, hits: seq<Hit>) {
    && |pl.posts| == |hits| > 0
    && Increasing(hits)
    && (forall i :: 0 <= i < |hits| ==>
         && AbsolutePos(pl.posts, i) == hits[i].pos
         && DecodeDecoration(pl.posts[i]) == hits[i].dec)
    && AreCheckpointsOf(pl.seekAbsolutes, pl.seekIndices, hits)
  }

  // every delta fits the 29 bits that a post has for it
  ghost predicate GapsFit(hits: seq<Hit>) {
    forall k :: 0 <= k < |hits| ==> hits[k].pos - PreviousPos(hits, k) < TWO_29
  }

  lemma {:induction false} PrefixSums(pl: PostingList, hits: seq<Hit>, i: nat)
    requires Encodes(pl, hits) && Increasing(hits) && GapsFit(hits) && i < |hits|
    requires 0 <= hits[0].pos
    requires forall k :: 0 <= k < |hits| ==> hits[k].dec != Other
    ensures AbsolutePos(pl.posts, i) == hits[i].pos
  {
    hide EncodePost, DecodeDelta, DecodeDecoration, AreCheckpointsOf, WordCount;
    var delta := hits[i].pos - PreviousPos(hits, i);
    assert pl.posts[i] == EncodePost(hits[i].dec, delta);
    PostRoundTrip(hits[i].dec, delta);
    if i > 0 {
      assert hits[i - 1].pos < hits[i].pos;
      PrefixSums(pl, hits, i - 1);
    }
  }

  // a list that encodes the hits decodes to them exactly when no gap between neighbours,
  // nor before the first, reaches 2^29
  lemma EncodesDecodes(pl: PostingList, hits: seq<Hit>)
    requires Encodes(pl, hits) && Increasing(hits) && hits != [] && 0 <= hits[0].pos
    requires forall k :: 0 <= k < |hits| ==> hits[k].dec != Other
    ensures Decodes(pl, hits) <==> GapsFit(hits)
  {
    hide Decodes, Encodes;
    if GapsFit(hits) {
      GapsFitDecodes(pl, hits);
    }
    if Decodes(pl, hits) {
      forall k | 0 <= k < |hits| ensures hits[k].pos - PreviousPos(hits, k) < TWO_29 {
        DecodedGapFits(pl, hits, k);
      }
    }
  }

  lemma DecodedGapFits(pl: PostingList, hits: seq<Hit>, k: nat)
    requires Encodes(pl, hits) && Decodes(pl, hits) && k < |hits| && hits[k].dec != Other
    ensures hits[k].pos - PreviousPos(hits, k) < TWO_29
  {
    hide Encodes, EncodePost, AreCheckpointsOf, AbsolutePos, DecodeDelta, DecodeDecoration, Increasing;
    EncodedParts(pl, hits);
    var gap := hits[k].pos - PreviousPos(hits, k);
    assert pl.posts[k] == EncodePost(hits[k].dec, gap);
    DeltaOf(pl.posts, k);
    PostRoundTrip(hits[k].dec, gap);
  }

  lemma DeltaOf(posts: seq<nat>, k: nat)
    requires k < |posts|
    ensures DecodeDelta(posts[k]) == AbsolutePos(posts, k) - if k == 0 then 0 else AbsolutePos(posts, k - 1)
  {
  }

  lemma GapsFitDecodes(pl: PostingList, hits: seq<Hit>)
    requires Encodes(pl, hits) && Increasing(hits) && GapsFit(hits) && hits != [] && 0 <= hits[0].pos
    requires forall k :: 0 <= k < |hits| ==> hits[k].dec != Other
    ensures Decodes(pl, hits)
  {
    hide Encodes, EncodePost, AreCheckpointsOf, AbsolutePos, DecodeDelta, DecodeDecoration, Increasing, PreviousPos;
    EncodedParts(pl, hits);
    forall i | 0 <= i < |hits|
      ensures AbsolutePos(pl.posts, i) == hits[i].pos && DecodeDecoration(pl.posts[i]) == hits[i].dec
    {
      PrefixSums(pl, hits, i);
      PostRoundTrip(hits[i].dec, hits[i].pos - PreviousPos(hits, i));
    }
  }

  lemma EncodedParts(pl: PostingList, hits: seq<Hit>)
    requires Encodes(pl, hits)
    ensures |pl.posts| == |hits| && AreCheckpointsOf(pl.seekAbsolutes, pl.seekIndices, hits)
    ensures forall i :: 0 <= i < |hits| ==>
              pl.posts[i] == EncodePost(hits[i].dec, hits[i].pos - PreviousPos(hits, i))
  {
    hide EncodePost, AreCheckpointsOf, WordCount;
  }

  // a post in numbers: eight times the delta, and a code from 0 to 4
  lemma PostIs(delta: nat)
    requires delta < 0x2000_0000
    ensures EncodePost(Body, delta) == 8 * delta
    ensures EncodePost(Title, delta) == 8 * delta + 1
    ensures EncodePost(Url, delta) == 8 * delta + 2
    ensures EncodePost(Anchor, delta) == 8 * delta + 3
    ensures EncodePost(Eod, delta) == 8 * delta + 4
  {
  }

  // ---- counting

  lemma {:induction false} WordCountIs(hits: seq<Hit>)
    ensures WordCount(hits) == |set i | 0 <= i < |hits| && hits[i].dec != Eod|
  {
    var words := set i | 0 <= i < |hits| && hits[i].dec != Eod;
    if hits != [] {
      var n := |hits| - 1;
      var init := hits[..n];
      WordCountIs(init);
      assert words == (set i | 0 <= i < |init| && init[i].dec != Eod) + if hits[n].dec != Eod then {n} else {};
    }
  }
}
