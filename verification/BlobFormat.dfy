/** The layout of an index blob: what bytes stand where for a builder's documents and
    dictionary entries. */
module BlobFormat {
  import opened Bytes
  import opened Posting
  import opened IndexBuilding

  const MAGIC := 0x494E444558424C42
  const VERSION := 4

  const HEADER_SIZE := 128
  const DOC_RECORD_SIZE := 64
  const TITLE_REF_SIZE := 8
  const TUPLE_HEADER_SIZE := 24
  const POSTING_HEADER_SIZE := 24

  // one dictionary entry, with its term's hash
  datatype Entry = Entry(term: string, pl: PostingList, hash: nat)

  // a builder's state as the writer takes it, the entries in the table's own order
  datatype Snapshot = Snapshot(documents: seq<DocumentMetadata>, entries: seq<Entry>, position: int)

  datatype TitleRef = TitleRef(offset: nat, length: nat)

  // ---- string arena: per document its url, then its title words

  function WordsArena(words: seq<string>): seq<Byte>
  {
    if words == [] then [] else WordsArena(words[..|words| - 1]) + ToBytes(words[|words| - 1])
  }

  function Arena(documents: seq<DocumentMetadata>): seq<Byte>
  {
    if documents == [] then []
    else
      var d := documents[|documents| - 1];
      Arena(documents[..|documents| - 1]) + ToBytes(d.url) + WordsArena(d.titleWords)
  }

  // the references of the words of a title that starts at `offset` in the arena
  function WordRefs(words: seq<string>, offset: nat): (r: seq<TitleRef>)
    ensures |r| == |words|
  {
    if words == [] then []
    else
      var n := |words| - 1;
      WordRefs(words[..n], offset) + [TitleRef(offset + WordsSize(words[..n]), |words[n]|)]
  }

  function WordsSize(words: seq<string>): nat {
    if words == [] then 0 else WordsSize(words[..|words| - 1]) + |words[|words| - 1]|
  }

  function ArenaSize(documents: seq<DocumentMetadata>): nat {
    if documents == [] then 0
    else
      var d := documents[|documents| - 1];
      ArenaSize(documents[..|documents| - 1]) + |d.url| + WordsSize(d.titleWords)
  }

  function TitleRefs(documents: seq<DocumentMetadata>): seq<TitleRef> {
    if documents == [] then []
    else
      var n := |documents| - 1;
      var d := documents[n];
      TitleRefs(documents[..n]) + WordRefs(d.titleWords, ArenaSize(documents[..n]) + |d.url|)
  }

  // ---- records

  function DocRecordBytes(documents: seq<DocumentMetadata>, i: nat): (r: seq<Byte>)
    requires i < |documents|
    ensures |r| == DOC_RECORD_SIZE
  {
    var d := documents[i];
    I32(d.docId) + I32(d.hopDistance) + I32(d.bodyLength) + I32(d.startPosition) + I32(d.endPosition) + U32(0) +
    U64(d.pageFileRank) + U64(d.pageFileNum) + U64(d.pageFileIndex) +
    U32(ArenaSize(documents[..i])) + U32(|d.url|) +
    U32(|TitleRefs(documents[..i])|) + U32(|d.titleWords|)
  }

  function TitleRefBytes(r: TitleRef): seq<Byte> {
    U32(r.offset) + U32(r.length)
  }

  function TupleSize(term: string): nat { RoundUp(TUPLE_HEADER_SIZE + |term| + 1) }

  function TupleBytes(e: Entry, postingOffset: nat): (r: seq<Byte>)
    ensures |r| == TupleSize(e.term)
  {
    U64(TupleSize(e.term)) + U64(postingOffset) + U64(e.hash) + ToBytes(e.term) +
    Zeros(TupleSize(e.term) - TUPLE_HEADER_SIZE - |e.term|)
  }

  function U32s(values: seq<nat>): (r: seq<Byte>)
    ensures |r| == 4 * |values|
  {
    if values == [] then [] else U32s(values[..|values| - 1]) + U32(values[|values| - 1])
  }

  function I32s(values: seq<int>): (r: seq<Byte>)
    ensures |r| == 4 * |values|
  {
    if values == [] then [] else I32s(values[..|values| - 1]) + I32(values[|values| - 1])
  }

  function PostingRawSize(pl: PostingList): nat {
    POSTING_HEADER_SIZE + 4 * |pl.posts| + 4 * |pl.seekAbsolutes| + 4 * |pl.seekIndices|
  }

  function PostingSize(pl: PostingList): nat { RoundUp(PostingRawSize(pl)) }

  function PostingHeaderBytes(pl: PostingList): (r: seq<Byte>)
    ensures |r| == POSTING_HEADER_SIZE
  {
    U32(|pl.posts|) + U32(|pl.seekAbsolutes|) +
    I32(pl.lastAbsPos) + I32(pl.numDocs) + I32(pl.wordOccurrences) + I32(pl.lastDocId)
  }

  function PostingBytes(pl: PostingList): (r: seq<Byte>)
    ensures |r| == PostingSize(pl)
  {
    PostingHeaderBytes(pl) + U32s(pl.posts) + I32s(pl.seekAbsolutes) + I32s(pl.seekIndices) +
    Zeros(PostingSize(pl) - PostingRawSize(pl))
  }

  // ---- dictionary

  predicate IsPowerOfTwo(n: nat) {
    n == 1 || (n > 1 && n % 2 == 0 && IsPowerOfTwo(n / 2))
  }

  // no power of two lies strictly between another and its double
  lemma {:induction false} PowersApart(m: nat, n: nat)
    requires IsPowerOfTwo(m) && IsPowerOfTwo(n) && m < n
    ensures 2 * m <= n
  {
    if m > 1 {
      PowersApart(m / 2, n / 2);
    }
  }

  // the first doubling of `n` that reaches `need`
  function Doubled(n: nat, need: nat): (r: nat)
    requires n > 0
    ensures r >= n && r >= need && (r == n || r < 2 * need)
    decreases if need > n then need - n else 0
  {
    if n < need then Doubled(n * 2, need) else n
  }

  function BucketCount(terms: nat): nat { Doubled(16, 2 * terms) }

  // the entries of one bucket, in order
  function Chain(entries: seq<Entry>, buckets: nat, b: nat): (r: seq<nat>)
    requires buckets > 0
    ensures forall k :: 0 <= k < |r| ==> r[k] < |entries| && entries[r[k]].hash % buckets == b
  {
    if entries == [] then []
    else
      var n := |entries| - 1;
      Chain(entries[..n], buckets, b) + if entries[n].hash % buckets == b then [n] else []
  }

  lemma {:induction false} ChainIs(entries: seq<Entry>, buckets: nat, b: nat)
    requires buckets > 0
    ensures forall i :: 0 <= i < |entries| && entries[i].hash % buckets == b ==> i in Chain(entries, buckets, b)
  {
    if entries != [] {
      var n := |entries| - 1;
      ChainIs(entries[..n], buckets, b);
      forall i | 0 <= i < |entries| && entries[i].hash % buckets == b
        ensures i in Chain(entries, buckets, b)
      {
        if i < n {
          assert entries[..n][i] == entries[i];
        }
      }
    }
  }

  function PostingParts(entries: seq<Entry>): (r: seq<seq<Byte>>)
    ensures |r| == |entries|
    ensures forall i :: 0 <= i < |entries| ==> r[i] == PostingBytes(entries[i].pl)
  {
    seq(|entries|, i requires 0 <= i < |entries| => PostingBytes(entries[i].pl))
  }

  function PostingOffset(entries: seq<Entry>, postingArena: nat, i: nat): nat
    requires i < |entries|
  {
    postingArena + OffsetOf(PostingParts(entries), i)
  }

  // the tuples of a chain, each with the offset of its posting list
  function ChainTuples(entries: seq<Entry>, chain: seq<nat>, postingArena: nat): (r: seq<seq<Byte>>)
    requires forall k :: 0 <= k < |chain| ==> chain[k] < |entries|
    ensures |r| == |chain|
  {
    seq(|chain|, k requires 0 <= k < |chain| =>
          TupleBytes(entries[chain[k]], PostingOffset(entries, postingArena, chain[k])))
  }

  // a bucket's chain with its zero sentinel, or nothing for an empty bucket
  function ChainBytes(entries: seq<Entry>, chain: seq<nat>, postingArena: nat): seq<Byte>
    requires forall k :: 0 <= k < |chain| ==> chain[k] < |entries|
  {
    if chain == [] then [] else Concat(ChainTuples(entries, chain, postingArena)) + Zeros(8)
  }

  function ChainParts(entries: seq<Entry>, buckets: nat, postingArena: nat): (r: seq<seq<Byte>>)
    requires buckets > 0
    ensures |r| == buckets
    ensures forall b :: 0 <= b < buckets ==> r[b] == ChainBytes(entries, Chain(entries, buckets, b), postingArena)
  {
    seq(buckets, b requires 0 <= b < buckets => ChainBytes(entries, Chain(entries, buckets, b), postingArena))
  }

  function TuplesSize(entries: seq<Entry>, chain: seq<nat>): nat
    requires forall k :: 0 <= k < |chain| ==> chain[k] < |entries|
  {
    if chain == [] then 0
    else TuplesSize(entries, chain[..|chain| - 1]) + TupleSize(entries[chain[|chain| - 1]].term)
  }

  function ChainSize(entries: seq<Entry>, chain: seq<nat>): nat
    requires forall k :: 0 <= k < |chain| ==> chain[k] < |entries|
  {
    if chain == [] then 0 else TuplesSize(entries, chain) + 8
  }

  // the size of the first b chains
  function ChainsSize(entries: seq<Entry>, buckets: nat, b: nat): nat
    requires buckets > 0
  {
    if b == 0 then 0 else ChainsSize(entries, buckets, b - 1) + ChainSize(entries, Chain(entries, buckets, b - 1))
  }

  lemma {:induction false} TuplesOffset(entries: seq<Entry>, chain: seq<nat>, postingArena: nat, k: nat)
    requires forall j :: 0 <= j < |chain| ==> chain[j] < |entries|
    requires k <= |chain|
    ensures OffsetOf(ChainTuples(entries, chain, postingArena), k) == TuplesSize(entries, chain[..k])
  {
    hide TupleBytes, TupleSize, PostingOffset;
    if k > 0 {
      TuplesOffset(entries, chain, postingArena, k - 1);
      assert chain[..k][..k - 1] == chain[..k - 1];
    }
  }

  lemma ChainLength(entries: seq<Entry>, chain: seq<nat>, postingArena: nat)
    requires forall j :: 0 <= j < |chain| ==> chain[j] < |entries|
    ensures |ChainBytes(entries, chain, postingArena)| == ChainSize(entries, chain)
  {
    hide TupleBytes, TupleSize, PostingOffset;
    TuplesOffset(entries, chain, postingArena, |chain|);
    assert chain[..|chain|] == chain;
    ConcatLength(ChainTuples(entries, chain, postingArena));
  }

  lemma {:induction false} ChainsOffset(entries: seq<Entry>, buckets: nat, postingArena: nat, b: nat)
    requires buckets > 0 && b <= buckets
    ensures OffsetOf(ChainParts(entries, buckets, postingArena), b) == ChainsSize(entries, buckets, b)
  {
    hide ChainBytes, ChainSize, Chain;
    if b > 0 {
      ChainsOffset(entries, buckets, postingArena, b - 1);
      ChainLength(entries, Chain(entries, buckets, b - 1), postingArena);
    }
  }

  // ---- sections and their offsets

  function Buckets(s: Snapshot): (n: nat)
    ensures n >= 16
  {
    BucketCount(|s.entries|)
  }

  function DocRecords(s: Snapshot): (r: seq<seq<Byte>>)
    ensures |r| == |s.documents|
    ensures forall i :: 0 <= i < |r| ==> r[i] == DocRecordBytes(s.documents, i)
  {
    seq(|s.documents|, i requires 0 <= i < |s.documents| => DocRecordBytes(s.documents, i))
  }

  function TitleRefRecords(refs: seq<TitleRef>): (r: seq<seq<Byte>>)
    ensures |r| == |refs|
    ensures forall i :: 0 <= i < |r| ==> r[i] == TitleRefBytes(refs[i])
  {
    seq(|refs|, i requires 0 <= i < |refs| => TitleRefBytes(refs[i]))
  }

  function TitleRefsOffset(s: Snapshot): nat { HEADER_SIZE + DOC_RECORD_SIZE * |s.documents| }

  function DictOffset(s: Snapshot): nat { TitleRefsOffset(s) + TITLE_REF_SIZE * |TitleRefs(s.documents)| }

  function ChainsOffsetIn(s: Snapshot): nat { DictOffset(s) + 8 + 8 * Buckets(s) }

  function PostingArenaOffset(s: Snapshot): nat {
    ChainsOffsetIn(s) + ChainsSize(s.entries, Buckets(s), Buckets(s))
  }

  function StringArenaOffset(s: Snapshot): nat {
    PostingArenaOffset(s) + OffsetOf(PostingParts(s.entries), |s.entries|)
  }

  function TotalSize(s: Snapshot): nat { StringArenaOffset(s) + RoundUp(ArenaSize(s.documents)) }

  // where the chain of a bucket begins; 0 for an empty bucket
  function BucketOffset(s: Snapshot, b: nat): nat {
    if Chain(s.entries, Buckets(s), b) == [] then 0
    else ChainsOffsetIn(s) + ChainsSize(s.entries, Buckets(s), b)
  }

  function BucketOffsets(s: Snapshot, n: nat): (r: seq<nat>)
    ensures |r| == n
    ensures forall b :: 0 <= b < n ==> r[b] == BucketOffset(s, b)
  {
    seq(n, b requires 0 <= b < n => BucketOffset(s, b))
  }

  function U64s(values: seq<nat>): (r: seq<Byte>)
    ensures |r| == 8 * |values|
  {
    if values == [] then [] else U64s(values[..|values| - 1]) + U64(values[|values| - 1])
  }

  function HeaderBytes(s: Snapshot): (r: seq<Byte>)
    ensures |r| == HEADER_SIZE
  {
    U64(MAGIC) + U64(VERSION) + U64(TotalSize(s)) + I64(s.position) +
    U64(|s.documents|) + U64(|s.entries|) +
    U64(HEADER_SIZE) + U64(TitleRefsOffset(s)) + U64(DictOffset(s)) +
    U64(PostingArenaOffset(s)) + U64(StringArenaOffset(s)) + Zeros(40)
  }

  function BucketTable(s: Snapshot): (r: seq<Byte>)
    ensures |r| == 8 + 8 * Buckets(s)
  {
    U64(Buckets(s)) + U64s(BucketOffsets(s, Buckets(s)))
  }

  function ArenaBytes(s: Snapshot): seq<Byte> {
    Arena(s.documents) + Zeros(RoundUp(ArenaSize(s.documents)) - ArenaSize(s.documents))
  }

  function Sections(s: Snapshot): (r: seq<seq<Byte>>)
    ensures |r| == 7
  {
    [HeaderBytes(s),
     Concat(DocRecords(s)),
     Concat(TitleRefRecords(TitleRefs(s.documents))),
     BucketTable(s),
     Concat(ChainParts(s.entries, Buckets(s), PostingArenaOffset(s))),
     Concat(PostingParts(s.entries)),
     ArenaBytes(s)]
  }

  function Blob(s: Snapshot): seq<Byte> {
    Concat(Sections(s))
  }

  lemma {:induction false} ArenaLength(documents: seq<DocumentMetadata>)
    ensures |Arena(documents)| == ArenaSize(documents)
  {
    if documents != [] {
      ArenaLength(documents[..|documents| - 1]);
      WordsArenaLength(documents[|documents| - 1].titleWords);
    }
  }

  lemma {:induction false} WordsArenaLength(words: seq<string>)
    ensures |WordsArena(words)| == WordsSize(words)
  {
    if words != [] {
      WordsArenaLength(words[..|words| - 1]);
    }
  }

  lemma SectionLengths(s: Snapshot)
    ensures var r := Sections(s);
            && |r[0]| == HEADER_SIZE
            && |r[1]| == DOC_RECORD_SIZE * |s.documents|
            && |r[2]| == TITLE_REF_SIZE * |TitleRefs(s.documents)|
            && |r[3]| == 8 + 8 * Buckets(s)
            && |r[4]| == ChainsSize(s.entries, Buckets(s), Buckets(s))
            && |r[5]| == OffsetOf(PostingParts(s.entries), |s.entries|)
            && |r[6]| == RoundUp(ArenaSize(s.documents))
  {
    hide HeaderBytes, DocRecordBytes, TitleRefs, BucketTable, ChainBytes, ChainsSize, Arena, ArenaSize, PostingBytes,
         RoundUp, Concat, OffsetOf, Buckets, PostingArenaOffset;
    ConcatLength(DocRecords(s));
    EqualParts(DocRecords(s), DOC_RECORD_SIZE, |s.documents|);
    var refs := TitleRefs(s.documents);
    ConcatLength(TitleRefRecords(refs));
    EqualParts(TitleRefRecords(refs), TITLE_REF_SIZE, |refs|);
    ConcatLength(ChainParts(s.entries, Buckets(s), PostingArenaOffset(s)));
    ChainsOffset(s.entries, Buckets(s), PostingArenaOffset(s), Buckets(s));
    ConcatLength(PostingParts(s.entries));
    ArenaLength(s.documents);
  }

  // each section stands where the header says
  lemma SectionsStand(s: Snapshot)
    ensures var r := Sections(s);
            && At(Blob(s), 0, r[0])
            && At(Blob(s), HEADER_SIZE, r[1])
            && At(Blob(s), TitleRefsOffset(s), r[2])
            && At(Blob(s), DictOffset(s), r[3])
            && At(Blob(s), ChainsOffsetIn(s), r[4])
            && At(Blob(s), PostingArenaOffset(s), r[5])
            && At(Blob(s), StringArenaOffset(s), r[6])
    ensures |Blob(s)| == TotalSize(s)
  {
    hide Sections, ChainsSize, ArenaSize, RoundUp, Concat, OffsetOf, Buckets, TitleRefs;
    SectionLengths(s);
    var r := Sections(s);
    SevenOffsets(r);
    AtOffset(r, 0);
    AtOffset(r, 1);
    AtOffset(r, 2);
    AtOffset(r, 3);
    AtOffset(r, 4);
    AtOffset(r, 5);
    AtOffset(r, 6);
    ConcatLength(r);
  }

  lemma SevenOffsets(r: seq<seq<Byte>>)
    requires |r| == 7
    ensures OffsetOf(r, 0) == 0
    ensures OffsetOf(r, 1) == |r[0]|
    ensures OffsetOf(r, 2) == OffsetOf(r, 1) + |r[1]|
    ensures OffsetOf(r, 3) == OffsetOf(r, 2) + |r[2]|
    ensures OffsetOf(r, 4) == OffsetOf(r, 3) + |r[3]|
    ensures OffsetOf(r, 5) == OffsetOf(r, 4) + |r[4]|
    ensures OffsetOf(r, 6) == OffsetOf(r, 5) + |r[5]|
    ensures OffsetOf(r, 7) == OffsetOf(r, 6) + |r[6]|
  {
  }

  lemma HeaderStands(s: Snapshot)
    ensures At(Blob(s), 0, HeaderBytes(s))
  {
    hide Blob, HeaderBytes, BucketTable, ArenaBytes, Concat, TitleRefsOffset, DictOffset, PostingArenaOffset,
         StringArenaOffset, ChainsOffsetIn, TotalSize, At;
    SectionsStand(s);
  }

  lemma DocRecordsStand(s: Snapshot)
    ensures At(Blob(s), HEADER_SIZE, Concat(DocRecords(s)))
  {
    hide Blob, HeaderBytes, BucketTable, ArenaBytes, Concat, TitleRefsOffset, DictOffset, PostingArenaOffset,
         StringArenaOffset, ChainsOffsetIn, TotalSize, At;
    SectionsStand(s);
  }

  lemma TitleRefsStand(s: Snapshot)
    ensures At(Blob(s), TitleRefsOffset(s), Concat(TitleRefRecords(TitleRefs(s.documents))))
  {
    hide Blob, HeaderBytes, BucketTable, ArenaBytes, Concat, TitleRefsOffset, DictOffset, PostingArenaOffset,
         StringArenaOffset, ChainsOffsetIn, TotalSize, At;
    SectionsStand(s);
  }

  lemma BucketTableStands(s: Snapshot)
    ensures At(Blob(s), DictOffset(s), BucketTable(s))
  {
    hide Blob, HeaderBytes, BucketTable, ArenaBytes, Concat, TitleRefsOffset, DictOffset, PostingArenaOffset,
         StringArenaOffset, ChainsOffsetIn, TotalSize, At;
    SectionsStand(s);
  }

  lemma ChainsStand(s: Snapshot)
    ensures At(Blob(s), ChainsOffsetIn(s), Concat(ChainParts(s.entries, Buckets(s), PostingArenaOffset(s))))
  {
    hide Blob, HeaderBytes, BucketTable, ArenaBytes, Concat, TitleRefsOffset, DictOffset, PostingArenaOffset,
         StringArenaOffset, ChainsOffsetIn, TotalSize, At, Buckets;
    SectionsStand(s);
  }

  lemma PostingsStand(s: Snapshot)
    ensures At(Blob(s), PostingArenaOffset(s), Concat(PostingParts(s.entries)))
  {
    hide Blob, HeaderBytes, BucketTable, ArenaBytes, Concat, TitleRefsOffset, DictOffset, PostingArenaOffset,
         StringArenaOffset, ChainsOffsetIn, TotalSize, At;
    SectionsStand(s);
  }

  lemma StringArenaStands(s: Snapshot)
    ensures At(Blob(s), StringArenaOffset(s), ArenaBytes(s))
  {
    hide Blob, HeaderBytes, BucketTable, ArenaBytes, Concat, TitleRefsOffset, DictOffset, PostingArenaOffset,
         StringArenaOffset, ChainsOffsetIn, TotalSize, At;
    SectionsStand(s);
  }

  // where tuple k of bucket b goes
  function TupleOffset(s: Snapshot, b: nat, k: nat): nat
    requires k <= |Chain(s.entries, Buckets(s), b)|
  {
    ChainsOffsetIn(s) + ChainsSize(s.entries, Buckets(s), b) +
    TuplesSize(s.entries, Chain(s.entries, Buckets(s), b)[..k])
  }

  // every record that holds 64-bit fields starts on an 8-byte boundary
  predicate Aligned(offset: nat) { offset % 8 == 0 }

  lemma RecordsAreAligned(s: Snapshot)
    ensures Aligned(TitleRefsOffset(s)) && Aligned(DictOffset(s)) && Aligned(ChainsOffsetIn(s))
    ensures Aligned(PostingArenaOffset(s)) && Aligned(StringArenaOffset(s)) && Aligned(TotalSize(s))
    ensures forall i :: 0 <= i < |s.entries| ==> Aligned(PostingOffset(s.entries, PostingArenaOffset(s), i))
    ensures forall b, k :: 0 <= b && 0 <= k <= |Chain(s.entries, Buckets(s), b)| ==> Aligned(TupleOffset(s, b, k))
  {
    hide Chain, ChainsSize, Buckets, ArenaSize, TitleRefs, OffsetOf, PostingParts, TuplesSize, Aligned;
    SectionsAligned(s);
    forall i | 0 <= i < |s.entries| ensures Aligned(PostingOffset(s.entries, PostingArenaOffset(s), i)) {
      PostingsAligned(s.entries, i);
      SumAligned(PostingArenaOffset(s), OffsetOf(PostingParts(s.entries), i));
    }
    forall b, k | 0 <= b && 0 <= k <= |Chain(s.entries, Buckets(s), b)| ensures Aligned(TupleOffset(s, b, k)) {
      ChainsAligned(s.entries, Buckets(s), b);
      TuplesAligned(s.entries, Chain(s.entries, Buckets(s), b)[..k]);
      SumAligned(ChainsOffsetIn(s), ChainsSize(s.entries, Buckets(s), b));
      SumAligned(ChainsOffsetIn(s) + ChainsSize(s.entries, Buckets(s), b),
                 TuplesSize(s.entries, Chain(s.entries, Buckets(s), b)[..k]));
    }
  }

  lemma SumAligned(a: nat, b: nat)
    requires Aligned(a) && Aligned(b)
    ensures Aligned(a + b)
  {
  }

  lemma SectionsAligned(s: Snapshot)
    ensures Aligned(TitleRefsOffset(s)) && Aligned(DictOffset(s)) && Aligned(ChainsOffsetIn(s))
    ensures Aligned(PostingArenaOffset(s)) && Aligned(StringArenaOffset(s)) && Aligned(TotalSize(s))
  {
    hide ChainsSize, Buckets, ArenaSize, TitleRefs, OffsetOf, PostingParts, RoundUp;
    ChainsAligned(s.entries, Buckets(s), Buckets(s));
    PostingsAligned(s.entries, |s.entries|);
  }

  lemma {:induction false} TuplesAligned(entries: seq<Entry>, chain: seq<nat>)
    requires forall k :: 0 <= k < |chain| ==> chain[k] < |entries|
    ensures Aligned(TuplesSize(entries, chain))
  {
    hide RoundUp;
    if chain != [] {
      TuplesAligned(entries, chain[..|chain| - 1]);
    }
  }

  lemma {:induction false} ChainsAligned(entries: seq<Entry>, buckets: nat, b: nat)
    requires buckets > 0
    ensures Aligned(ChainsSize(entries, buckets, b))
  {
    hide Chain, TuplesSize;
    if b > 0 {
      ChainsAligned(entries, buckets, b - 1);
      TuplesAligned(entries, Chain(entries, buckets, b - 1));
    }
  }

  lemma {:induction false} PostingsAligned(entries: seq<Entry>, i: nat)
    requires i <= |entries|
    ensures Aligned(OffsetOf(PostingParts(entries), i))
  {
    hide PostingBytes, PostingSize, Aligned;
    if i > 0 {
      PostingsAligned(entries, i - 1);
      PostingSizeAligned(entries[i - 1].pl);
      SumAligned(OffsetOf(PostingParts(entries), i - 1), PostingSize(entries[i - 1].pl));
    } else {
      assert Aligned(0) by { SumAligned0(); }
    }
  }

  lemma SumAligned0()
    ensures Aligned(0)
  {
  }

  lemma PostingSizeAligned(pl: PostingList)
    ensures Aligned(PostingSize(pl))
  {
  }
}
