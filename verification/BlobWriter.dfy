/** WriteBlobV4: two passes over a builder's state. The first measures the sections and
    gives every variable-length record its offset, the second fills a zeroed buffer. */
module BlobWriting {
  import opened Bytes
  import opened Posting
  import opened IndexBuilding
  import opened BlobFormat

  // the bytes written so far, the rest of the buffer still zero
  ghost predicate Written(buf: seq<Byte>, done: seq<Byte>) {
    |done| <= |buf| && buf == done + Zeros(|buf| - |done|)
  }

  // padding is already there
  lemma WrittenZeros(buf: seq<Byte>, done: seq<Byte>, n: nat)
    requires Written(buf, done) && |done| + n <= |buf|
    ensures Written(buf, done + Zeros(n))
  {
    assert Zeros(|buf| - |done|) == Zeros(n) + Zeros(|buf| - |done| - n);
    assert buf == done + Zeros(n) + Zeros(|buf| - |done| - n);
  }

  method PutNext(buf: array<Byte>, offset: nat, bytes: seq<Byte>, ghost done: seq<Byte>)
    requires Written(buf[..], done) && offset == |done| && offset + |bytes| <= buf.Length
    modifies buf
    ensures Written(buf[..], done + bytes)
  {
    ghost var before := buf[..];
    Put(buf, offset, bytes);
    assert before[..offset] == done;
    assert before[offset + |bytes|..] == Zeros(buf.Length - offset - |bytes|);
    assert buf[..] == done + bytes + Zeros(buf.Length - offset - |bytes|);
  }

  // ---- pass 1

  method CountBuckets(terms: nat) returns (n: nat)
    ensures n == BucketCount(terms) && IsPowerOfTwo(n) && 16 <= n && 2 * terms <= n
    ensures forall m: nat :: IsPowerOfTwo(m) && 16 <= m && 2 * terms <= m ==> n <= m
  {
    n := 16;
    while n < terms * 2
      invariant n >= 16 && IsPowerOfTwo(n)
      invariant n == 16 || n < 4 * terms
      invariant Doubled(n, 2 * terms) == BucketCount(terms)
      decreases terms * 2 - n
    {
      assert IsPowerOfTwo(n * 2 / 2);
      n := n * 2;
    }
    forall m: nat | IsPowerOfTwo(m) && 16 <= m && 2 * terms <= m ensures n <= m {
      if m < n {
        PowersApart(m, n);
      }
    }
  }

  ghost predicate AreChains(chains: seq<seq<nat>>, entries: seq<Entry>, buckets: nat)
    requires buckets > 0
  {
    |chains| == buckets && forall b :: 0 <= b < buckets ==> chains[b] == Chain(entries, buckets, b)
  }

  method GroupChains(entries: seq<Entry>, buckets: nat) returns (chains: seq<seq<nat>>)
    requires buckets > 0
    ensures AreChains(chains, entries, buckets)
  {
    chains := seq(buckets, _ => []);
    for i := 0 to |entries|
      invariant AreChains(chains, entries[..i], buckets)
    {
      var b := entries[i].hash % buckets;
      assert entries[..i + 1][..i] == entries[..i];
      chains := chains[b := chains[b] + [i]];
    }
    assert entries[..|entries|] == entries;
  }

  // the string arena and the references into it
  method MeasureTitle(d: DocumentMetadata, refs: seq<TitleRef>, arena: seq<Byte>)
    returns (refs': seq<TitleRef>, arena': seq<Byte>)
    ensures refs' == refs + WordRefs(d.titleWords, |arena|)
    ensures arena' == arena + WordsArena(d.titleWords)
  {
    refs', arena' := refs, arena;
    for i := 0 to |d.titleWords|
      invariant refs' == refs + WordRefs(d.titleWords[..i], |arena|)
      invariant arena' == arena + WordsArena(d.titleWords[..i])
    {
      var w := d.titleWords[i];
      assert d.titleWords[..i + 1][..i] == d.titleWords[..i];
      WordsArenaLength(d.titleWords[..i]);
      refs' := refs' + [TitleRef(|arena'|, |w|)];
      arena' := arena' + ToBytes(w);
    }
    assert d.titleWords[..|d.titleWords|] == d.titleWords;
  }

  method MeasureDocuments(documents: seq<DocumentMetadata>)
    returns (urlOffsets: seq<nat>, titleStarts: seq<nat>, refs: seq<TitleRef>, arena: seq<Byte>)
    ensures |urlOffsets| == |titleStarts| == |documents|
    ensures forall i :: 0 <= i < |documents| ==>
              && urlOffsets[i] == ArenaSize(documents[..i])
              && titleStarts[i] == |TitleRefs(documents[..i])|
    ensures refs == TitleRefs(documents)
    ensures arena == Arena(documents)
  {
    hide WordRefs, WordsArena, WordsSize;
    urlOffsets, titleStarts, refs, arena := [], [], [], [];
    for i := 0 to |documents|
      invariant |urlOffsets| == |titleStarts| == i
      invariant forall j :: 0 <= j < i ==>
                  && urlOffsets[j] == ArenaSize(documents[..j])
                  && titleStarts[j] == |TitleRefs(documents[..j])|
      invariant refs == TitleRefs(documents[..i])
      invariant arena == Arena(documents[..i])
    {
      var d := documents[i];
      assert documents[..i + 1][..i] == documents[..i];
      ArenaLength(documents[..i]);
      urlOffsets := urlOffsets + [|arena|];
      arena := arena + ToBytes(d.url);
      titleStarts := titleStarts + [|refs|];
      refs, arena := MeasureTitle(d, refs, arena);
    }
    assert documents[..|documents|] == documents;
  }

  // dict_tuples_bytes and the sentinels of the non-empty buckets
  method MeasureChains(entries: seq<Entry>, chains: seq<seq<nat>>, buckets: nat) returns (size: nat)
    requires buckets > 0 && AreChains(chains, entries, buckets)
    ensures size == ChainsSize(entries, buckets, buckets)
  {
    hide Chain;
    var tuplesBytes, nonEmpty := 0, 0;
    for b := 0 to buckets
      invariant tuplesBytes + 8 * nonEmpty == ChainsSize(entries, buckets, b)
    {
      var chain := chains[b];
      if chain != [] {
        nonEmpty := nonEmpty + 1;
        var before := tuplesBytes;
        for k := 0 to |chain|
          invariant tuplesBytes == before + TuplesSize(entries, chain[..k])
        {
          assert chain[..k + 1][..k] == chain[..k];
          tuplesBytes := tuplesBytes + TupleSize(entries[chain[k]].term);
        }
        assert chain[..|chain|] == chain;
      }
    }
    size := tuplesBytes + 8 * nonEmpty;
  }

  method PlacePostings(entries: seq<Entry>, postingArena: nat) returns (offsets: seq<nat>, end: nat)
    ensures |offsets| == |entries|
    ensures forall i :: 0 <= i < |entries| ==> offsets[i] == PostingOffset(entries, postingArena, i)
    ensures end == postingArena + OffsetOf(PostingParts(entries), |entries|)
  {
    hide PostingBytes;
    offsets, end := [], postingArena;
    for i := 0 to |entries|
      invariant |offsets| == i
      invariant forall j :: 0 <= j < i ==> offsets[j] == PostingOffset(entries, postingArena, j)
      invariant end == postingArena + OffsetOf(PostingParts(entries), i)
    {
      offsets := offsets + [end];
      end := end + PostingSize(entries[i].pl);
    }
  }

  ghost predicate TuplePlaced(s: Snapshot, offsets: seq<nat>, b: nat, k: nat) {
    var chain := Chain(s.entries, Buckets(s), b);
    k < |chain| && |offsets| == |s.entries| && offsets[chain[k]] == TupleOffset(s, b, k)
  }

  lemma {:induction false} ChainIncreases(entries: seq<Entry>, buckets: nat, b: nat)
    requires buckets > 0
    ensures forall j, k :: 0 <= j < k < |Chain(entries, buckets, b)| ==>
              Chain(entries, buckets, b)[j] < Chain(entries, buckets, b)[k]
  {
    if entries != [] {
      ChainIncreases(entries[..|entries| - 1], buckets, b);
    }
  }

  method PlaceChain(s: Snapshot, b: nat, chain: seq<nat>, offsets: seq<nat>, cursor: nat)
    returns (offsets': seq<nat>, cursor': nat)
    requires b < Buckets(s) && chain == Chain(s.entries, Buckets(s), b) && |offsets| == |s.entries|
    requires cursor == TupleOffset(s, b, 0)
    ensures |offsets'| == |s.entries|
    ensures forall k :: 0 <= k < |chain| ==> TuplePlaced(s, offsets', b, k)
    ensures forall i :: 0 <= i < |offsets| && s.entries[i].hash % Buckets(s) != b ==> offsets'[i] == offsets[i]
    ensures cursor' == TupleOffset(s, b, |chain|)
  {
    hide Chain, Buckets, ChainsOffsetIn, ChainsSize;
    ChainIncreases(s.entries, Buckets(s), b);
    offsets', cursor' := offsets, cursor;
    for k := 0 to |chain|
      invariant |offsets'| == |s.entries|
      invariant cursor' == TupleOffset(s, b, k)
      invariant forall j :: 0 <= j < k ==> TuplePlaced(s, offsets', b, j)
      invariant forall i :: 0 <= i < |offsets| && s.entries[i].hash % Buckets(s) != b ==> offsets'[i] == offsets[i]
    {
      assert chain[..k + 1][..k] == chain[..k];
      ghost var before := offsets';
      offsets' := offsets'[chain[k] := cursor'];
      cursor' := cursor' + TupleSize(s.entries[chain[k]].term);
      forall j | 0 <= j < k ensures TuplePlaced(s, offsets', b, j) {
        assert TuplePlaced(s, before, b, j);
      }
    }
  }

  ghost predicate ChainPlaced(s: Snapshot, offsets: seq<nat>, b: nat) {
    forall k :: 0 <= k < |Chain(s.entries, Buckets(s), b)| ==> TuplePlaced(s, offsets, b, k)
  }

  // placing another bucket's tuples leaves a placed chain as it is
  lemma OtherChainPlaced(s: Snapshot, before: seq<nat>, after: seq<nat>, b: nat, other: nat)
    requires ChainPlaced(s, before, other) && |before| == |after| == |s.entries| && other != b
    requires forall i :: 0 <= i < |before| && s.entries[i].hash % Buckets(s) != b ==> after[i] == before[i]
    ensures ChainPlaced(s, after, other)
  {
    hide Buckets, TupleOffset;
    var chain := Chain(s.entries, Buckets(s), other);
    forall k | 0 <= k < |chain| ensures TuplePlaced(s, after, other, k) {
      assert TuplePlaced(s, before, other, k);
    }
  }

  method PlaceTuples(s: Snapshot, chains: seq<seq<nat>>, chainsOffset: nat)
    returns (tupleOffsets: seq<nat>, bucketOffsets: seq<nat>)
    requires AreChains(chains, s.entries, Buckets(s)) && chainsOffset == ChainsOffsetIn(s)
    ensures |tupleOffsets| == |s.entries|
    ensures forall b :: 0 <= b < Buckets(s) ==> ChainPlaced(s, tupleOffsets, b)
    ensures bucketOffsets == BucketOffsets(s, Buckets(s))
  {
    hide Chain, Buckets, ChainsOffsetIn, ChainPlaced, BucketOffsets;
    tupleOffsets := seq(|s.entries|, _ => 0);
    bucketOffsets := [];
    var cursor := chainsOffset;
    NoBucketOffsets(s);
    for b := 0 to |chains|
      invariant |tupleOffsets| == |s.entries|
      invariant cursor == ChainsOffsetIn(s) + ChainsSize(s.entries, Buckets(s), b)
      invariant bucketOffsets == BucketOffsets(s, b)
      invariant forall c :: 0 <= c < b ==> ChainPlaced(s, tupleOffsets, c)
    {
      var chain := chains[b];
      ghost var before := tupleOffsets;
      NextBucketOffset(s, b);
      if chain == [] {
        bucketOffsets := bucketOffsets + [0];
        EmptyChainPlaced(s, tupleOffsets, b);
      } else {
        bucketOffsets := bucketOffsets + [cursor];
        assert chain[..0] == [] && chain[..|chain|] == chain;
        tupleOffsets, cursor := PlaceChain(s, b, chain, tupleOffsets, cursor);
        cursor := cursor + 8;  // chain-end sentinel
        AllPlaced(s, tupleOffsets, b);
        forall c | 0 <= c < b ensures ChainPlaced(s, tupleOffsets, c) {
          OtherChainPlaced(s, before, tupleOffsets, b, c);
        }
      }
    }
  }

  lemma NoBucketOffsets(s: Snapshot)
    ensures BucketOffsets(s, 0) == []
  {
  }

  lemma NextBucketOffset(s: Snapshot, b: nat)
    ensures BucketOffsets(s, b + 1) == BucketOffsets(s, b) +
              [if Chain(s.entries, Buckets(s), b) == [] then 0
               else ChainsOffsetIn(s) + ChainsSize(s.entries, Buckets(s), b)]
  {
    hide Chain, Buckets, ChainsOffsetIn, ChainsSize;
  }

  lemma EmptyChainPlaced(s: Snapshot, offsets: seq<nat>, b: nat)
    requires Chain(s.entries, Buckets(s), b) == []
    ensures ChainPlaced(s, offsets, b)
  {
  }

  lemma AllPlaced(s: Snapshot, offsets: seq<nat>, b: nat)
    requires forall k :: 0 <= k < |Chain(s.entries, Buckets(s), b)| ==> TuplePlaced(s, offsets, b, k)
    ensures ChainPlaced(s, offsets, b)
  {
    hide TuplePlaced, Chain, Buckets;
  }

  // ---- pass 2

  method WriteDocRecords(buf: array<Byte>, s: Snapshot, urlOffsets: seq<nat>, titleStarts: seq<nat>,
                         ghost done: seq<Byte>)
    requires Written(buf[..], done) && |done| == HEADER_SIZE
    requires |done| + |Concat(DocRecords(s))| <= buf.Length
    requires |urlOffsets| == |titleStarts| == |s.documents|
    requires forall i :: 0 <= i < |s.documents| ==>
               && urlOffsets[i] == ArenaSize(s.documents[..i])
               && titleStarts[i] == |TitleRefs(s.documents[..i])|
    modifies buf
    ensures Written(buf[..], done + Concat(DocRecords(s)))
  {
    hide Written, TitleRefs, ArenaSize, Concat, OffsetOf, I32, U32, U64;
    ghost var parts := DocRecords(s);
    assert parts[..0] == [] && parts[..|parts|] == parts;
    assert done + Concat([]) == done by { ConcatNone(); }
    for i := 0 to |s.documents|
      invariant Written(buf[..], done + Concat(parts[..i]))
    {
      var d := s.documents[i];
      var rec := I32(d.docId) + I32(d.hopDistance) + I32(d.bodyLength) + I32(d.startPosition) + I32(d.endPosition) +
                 U32(0) + U64(d.pageFileRank) + U64(d.pageFileNum) + U64(d.pageFileIndex) +
                 U32(urlOffsets[i]) + U32(|d.url|) + U32(titleStarts[i]) + U32(|d.titleWords|);
      assert rec == parts[i];
      NextPart(parts, i);
      EqualParts(parts, DOC_RECORD_SIZE, i);
      PutNext(buf, HEADER_SIZE + i * DOC_RECORD_SIZE, rec, done + Concat(parts[..i]));
      assert done + Concat(parts[..i]) + rec == done + Concat(parts[..i + 1]);
    }
  }

  lemma ConcatNone()
    ensures Concat([]) == []
  {
  }

  // the vector of title references, as bytes
  method TitleRefTable(refs: seq<TitleRef>) returns (bytes: seq<Byte>)
    ensures bytes == Concat(TitleRefRecords(refs))
  {
    hide TitleRefBytes;
    bytes := [];
    ghost var parts := TitleRefRecords(refs);
    assert parts[..0] == [] && parts[..|parts|] == parts;
    for i := 0 to |refs|
      invariant bytes == Concat(parts[..i])
    {
      NextPart(parts, i);
      bytes := bytes + TitleRefBytes(refs[i]);
    }
  }

  method WriteTuple(buf: array<Byte>, offset: nat, e: Entry, postingOffset: nat, ghost done: seq<Byte>)
    requires Written(buf[..], done) && offset == |done| && offset + TupleSize(e.term) <= buf.Length
    modifies buf
    ensures Written(buf[..], done + TupleBytes(e, postingOffset))
  {
    hide Written, U64;
    var st := U64(TupleSize(e.term)) + U64(postingOffset) + U64(e.hash);
    PutNext(buf, offset, st, done);
    PutNext(buf, offset + TUPLE_HEADER_SIZE, ToBytes(e.term), done + st);
    // the terminator and the padding are zero already
    WrittenZeros(buf[..], done + st + ToBytes(e.term), TupleSize(e.term) - TUPLE_HEADER_SIZE - |e.term|);
    assert done + st + ToBytes(e.term) + Zeros(TupleSize(e.term) - TUPLE_HEADER_SIZE - |e.term|)
           == done + TupleBytes(e, postingOffset);
  }

  method WriteChain(buf: array<Byte>, s: Snapshot, b: nat, chain: seq<nat>, tupleOffsets: seq<nat>,
                    postingOffsets: seq<nat>, ghost done: seq<Byte>)
    requires b < Buckets(s) && chain == Chain(s.entries, Buckets(s), b) && chain != []
    requires |tupleOffsets| == |postingOffsets| == |s.entries| && ChainPlaced(s, tupleOffsets, b)
    requires forall i :: 0 <= i < |s.entries| ==>
               postingOffsets[i] == PostingOffset(s.entries, PostingArenaOffset(s), i)
    requires Written(buf[..], done) && |done| == TupleOffset(s, b, 0)
    requires |done| + |ChainBytes(s.entries, chain, PostingArenaOffset(s))| <= buf.Length
    modifies buf
    ensures Written(buf[..], done + ChainBytes(s.entries, chain, PostingArenaOffset(s)))
  {
    hide Written, Chain, Buckets, PostingArenaOffset, PostingOffset, TupleBytes, Concat, OffsetOf, ChainsOffsetIn,
         ChainsSize;
    ghost var parts := ChainTuples(s.entries, chain, PostingArenaOffset(s));
    assert parts[..0] == [] && parts[..|parts|] == parts && chain[..0] == [];
    assert done + Concat([]) == done by { ConcatNone(); }
    for k := 0 to |chain|
      invariant Written(buf[..], done + Concat(parts[..k]))
    {
      NextPart(parts, k);
      TuplesOffset(s.entries, chain, PostingArenaOffset(s), k);
      assert TuplePlaced(s, tupleOffsets, b, k);
      WriteTuple(buf, tupleOffsets[chain[k]], s.entries[chain[k]], postingOffsets[chain[k]], done + Concat(parts[..k]));
      assert done + Concat(parts[..k]) + parts[k] == done + Concat(parts[..k + 1]);
    }
    // chain-end sentinel: 8 bytes of zero
    assert done + (Concat(parts) + Zeros(8)) == done + Concat(parts) + Zeros(8);
    WrittenZeros(buf[..], done + Concat(parts), 8);
  }

  method WriteChains(buf: array<Byte>, s: Snapshot, chains: seq<seq<nat>>, tupleOffsets: seq<nat>,
                     postingOffsets: seq<nat>, ghost done: seq<Byte>)
    requires AreChains(chains, s.entries, Buckets(s))
    requires |tupleOffsets| == |postingOffsets| == |s.entries|
    requires forall b :: 0 <= b < Buckets(s) ==> ChainPlaced(s, tupleOffsets, b)
    requires forall i :: 0 <= i < |s.entries| ==>
               postingOffsets[i] == PostingOffset(s.entries, PostingArenaOffset(s), i)
    requires Written(buf[..], done) && |done| == ChainsOffsetIn(s)
    requires |done| + |Concat(ChainParts(s.entries, Buckets(s), PostingArenaOffset(s)))| <= buf.Length
    modifies buf
    ensures Written(buf[..], done + Concat(ChainParts(s.entries, Buckets(s), PostingArenaOffset(s))))
  {
    hide Written, Chain, Buckets, PostingArenaOffset, PostingOffset, ChainTuples, Concat, OffsetOf, ChainsOffsetIn,
         ChainsSize, ChainPlaced;
    ghost var parts := ChainParts(s.entries, Buckets(s), PostingArenaOffset(s));
    assert parts[..0] == [] && parts[..|parts|] == parts;
    assert done + Concat([]) == done by { ConcatNone(); }
    for b := 0 to |chains|
      invariant Written(buf[..], done + Concat(parts[..b]))
    {
      NextPart(parts, b);
      ChainsOffset(s.entries, Buckets(s), PostingArenaOffset(s), b);
      assert done + Concat(parts[..b]) + parts[b] == done + Concat(parts[..b + 1]);
      if chains[b] == [] {
        assert done + Concat(parts[..b]) + [] == done + Concat(parts[..b]);
      } else {
        FirstTupleOffset(s, b);
        WriteChain(buf, s, b, chains[b], tupleOffsets, postingOffsets, done + Concat(parts[..b]));
      }
    }
  }

  lemma FirstTupleOffset(s: Snapshot, b: nat)
    ensures TupleOffset(s, b, 0) == ChainsOffsetIn(s) + ChainsSize(s.entries, Buckets(s), b)
  {
    hide Chain, ChainsSize, Buckets, ChainsOffsetIn;
    assert Chain(s.entries, Buckets(s), b)[..0] == [];
  }

  method WritePosting(buf: array<Byte>, offset: nat, pl: PostingList, ghost done: seq<Byte>)
    requires Written(buf[..], done) && offset == |done| && offset + PostingSize(pl) <= buf.Length
    modifies buf
    ensures Written(buf[..], done + PostingBytes(pl))
  {
    hide Written, PostingHeaderBytes, U32s, I32s;
    var p := offset;
    ghost var d := done;
    PutNext(buf, p, PostingHeaderBytes(pl), d);
    p, d := p + POSTING_HEADER_SIZE, d + PostingHeaderBytes(pl);
    PutNext(buf, p, U32s(pl.posts), d);
    p, d := p + 4 * |pl.posts|, d + U32s(pl.posts);
    PutNext(buf, p, I32s(pl.seekAbsolutes), d);
    p, d := p + 4 * |pl.seekAbsolutes|, d + I32s(pl.seekAbsolutes);
    PutNext(buf, p, I32s(pl.seekIndices), d);
    d := d + I32s(pl.seekIndices);
    WrittenZeros(buf[..], d, PostingSize(pl) - PostingRawSize(pl));
    assert d + Zeros(PostingSize(pl) - PostingRawSize(pl)) == done + PostingBytes(pl);
  }

  method WritePostings(buf: array<Byte>, entries: seq<Entry>, postingArena: nat, postingOffsets: seq<nat>,
                       ghost done: seq<Byte>)
    requires |postingOffsets| == |entries|
    requires forall i :: 0 <= i < |entries| ==> postingOffsets[i] == PostingOffset(entries, postingArena, i)
    requires Written(buf[..], done) && |done| == postingArena
    requires |done| + |Concat(PostingParts(entries))| <= buf.Length
    modifies buf
    ensures Written(buf[..], done + Concat(PostingParts(entries)))
  {
    hide Written, Concat, OffsetOf, PostingBytes;
    ghost var parts := PostingParts(entries);
    assert parts[..0] == [] && parts[..|parts|] == parts;
    assert done + Concat([]) == done by { ConcatNone(); }
    for i := 0 to |entries|
      invariant Written(buf[..], done + Concat(parts[..i]))
    {
      NextPart(parts, i);
      WritePosting(buf, postingOffsets[i], entries[i].pl, done + Concat(parts[..i]));
      assert done + Concat(parts[..i]) + parts[i] == done + Concat(parts[..i + 1]);
    }
  }

  // the first j sections
  ghost function Done(s: Snapshot, j: nat): seq<Byte>
    requires j <= 7
  {
    Concat(Sections(s)[..j])
  }

  lemma NextSection(s: Snapshot, j: nat)
    requires j < 7
    ensures Done(s, j + 1) == Done(s, j) + Sections(s)[j]
    ensures |Done(s, j)| + |Sections(s)[j]| <= TotalSize(s)
    ensures j == 0 ==> Done(s, j) == []
    ensures j == 1 ==> |Done(s, j)| == HEADER_SIZE
    ensures j == 2 ==> |Done(s, j)| == TitleRefsOffset(s)
    ensures j == 3 ==> |Done(s, j)| == DictOffset(s)
    ensures j == 4 ==> |Done(s, j)| == ChainsOffsetIn(s)
    ensures j == 5 ==> |Done(s, j)| == PostingArenaOffset(s)
    ensures j == 6 ==> |Done(s, j)| == StringArenaOffset(s)
  {
    hide Concat, OffsetOf, Sections, ChainsSize, ArenaSize, RoundUp, Buckets, TitleRefs;
    var r := Sections(s);
    NextPart(r, j);
    SevenOffsets(r);
    SectionLengths(s);
    ConcatLength(r);
    if j == 0 {
      ConcatNone();
      assert r[..0] == [];
    }
  }

  // pass 2: every section in turn, at its own offset
  method Fill(buf: array<Byte>, s: Snapshot, chains: seq<seq<nat>>,
              urlOffsets: seq<nat>, titleStarts: seq<nat>, refs: seq<TitleRef>, arena: seq<Byte>,
              postingOffsets: seq<nat>, tupleOffsets: seq<nat>, bucketOffsets: seq<nat>)
    requires buf.Length == TotalSize(s) && buf[..] == Zeros(buf.Length)
    requires AreChains(chains, s.entries, Buckets(s))
    requires |urlOffsets| == |titleStarts| == |s.documents|
    requires forall i :: 0 <= i < |s.documents| ==>
               && urlOffsets[i] == ArenaSize(s.documents[..i])
               && titleStarts[i] == |TitleRefs(s.documents[..i])|
    requires refs == TitleRefs(s.documents) && arena == Arena(s.documents)
    requires |tupleOffsets| == |postingOffsets| == |s.entries|
    requires forall i :: 0 <= i < |s.entries| ==>
               postingOffsets[i] == PostingOffset(s.entries, PostingArenaOffset(s), i)
    requires forall b :: 0 <= b < Buckets(s) ==> ChainPlaced(s, tupleOffsets, b)
    requires bucketOffsets == BucketOffsets(s, Buckets(s))
    modifies buf
    ensures buf[..] == Blob(s)
  {
    hide Written, Concat, Done, ChainPlaced, AreChains, TitleRefs, Arena, ArenaSize, PostingOffset, PostingArenaOffset,
         ChainsOffsetIn, DictOffset, TitleRefsOffset, StringArenaOffset, TotalSize, Buckets, HeaderBytes, BucketOffsets,
         U64s, DocRecords, ChainParts, PostingParts, TitleRefRecords, RoundUp;
    EmptyIsWritten(buf[..]);
    NextSection(s, 0);
    PutNext(buf, 0, HeaderBytes(s), Done(s, 0));
    NextSection(s, 1);
    WriteDocRecords(buf, s, urlOffsets, titleStarts, Done(s, 1));
    NextSection(s, 2);
    var table := TitleRefTable(refs);
    PutNext(buf, TitleRefsOffset(s), table, Done(s, 2));
    NextSection(s, 3);
    WriteBucketTable(buf, s, bucketOffsets, Done(s, 3));
    NextSection(s, 4);
    WriteChains(buf, s, chains, tupleOffsets, postingOffsets, Done(s, 4));
    NextSection(s, 5);
    WritePostings(buf, s.entries, PostingArenaOffset(s), postingOffsets, Done(s, 5));
    NextSection(s, 6);
    WriteArena(buf, s, arena, Done(s, 6));
    AllIsWritten(buf[..], s);
  }

  method WriteBucketTable(buf: array<Byte>, s: Snapshot, bucketOffsets: seq<nat>, ghost done: seq<Byte>)
    requires bucketOffsets == BucketOffsets(s, Buckets(s))
    requires Written(buf[..], done) && |done| == DictOffset(s) && |done| + |BucketTable(s)| <= buf.Length
    modifies buf
    ensures Written(buf[..], done + BucketTable(s))
  {
    hide Written, U64, U64s, Buckets, BucketOffsets, DictOffset;
    PutNext(buf, DictOffset(s), U64(Buckets(s)), done);
    PutNext(buf, DictOffset(s) + 8, U64s(bucketOffsets), done + U64(Buckets(s)));
    assert done + U64(Buckets(s)) + U64s(bucketOffsets) == done + BucketTable(s);
  }

  method WriteArena(buf: array<Byte>, s: Snapshot, arena: seq<Byte>, ghost done: seq<Byte>)
    requires arena == Arena(s.documents)
    requires Written(buf[..], done) && |done| == StringArenaOffset(s) && |done| + |ArenaBytes(s)| <= buf.Length
    modifies buf
    ensures Written(buf[..], done + ArenaBytes(s))
  {
    hide Written, Arena, StringArenaOffset, RoundUp, ArenaSize;
    ArenaLength(s.documents);
    var pad := RoundUp(ArenaSize(s.documents)) - ArenaSize(s.documents);
    PutNext(buf, StringArenaOffset(s), arena, done);
    WrittenZeros(buf[..], done + arena, pad);
    assert done + arena + Zeros(pad) == done + ArenaBytes(s);
  }

  lemma EmptyIsWritten(buf: seq<Byte>)
    requires buf == Zeros(|buf|)
    ensures Written(buf, [])
  {
  }

  lemma AllIsWritten(buf: seq<Byte>, s: Snapshot)
    requires Written(buf, Done(s, 6) + Sections(s)[6]) && |buf| == TotalSize(s)
    ensures buf == Blob(s)
  {
    hide Concat, OffsetOf, Sections, ChainsSize, ArenaSize, RoundUp, Buckets, TitleRefs;
    NextSection(s, 6);
    assert Sections(s)[..7] == Sections(s);
    SectionsStand(s);
  }

  // the bytes that go to the file
  method WriteBlobV4(s: Snapshot) returns (blob: seq<Byte>)
    ensures blob == Blob(s)
  {
    hide Blob, AreChains, Chain, TitleRefs, Arena, ArenaSize, PostingOffset, ChainPlaced, ChainsSize, PostingParts,
         OffsetOf, RoundUp, BucketOffsets;
    var nBuckets := CountBuckets(|s.entries|);
    var chains := GroupChains(s.entries, nBuckets);
    var urlOffsets, titleStarts, refs, arena := MeasureDocuments(s.documents);
    ArenaLength(s.documents);
    var chainsSize := MeasureChains(s.entries, chains, nBuckets);
    var titleRefsOffset := HEADER_SIZE + |s.documents| * DOC_RECORD_SIZE;
    var dictOffset := titleRefsOffset + |refs| * TITLE_REF_SIZE;
    var chainsOffset := dictOffset + 8 + nBuckets * 8;
    var postingArenaOffset := chainsOffset + chainsSize;
    var postingOffsets, stringArenaOffset := PlacePostings(s.entries, postingArenaOffset);
    var totalSize := stringArenaOffset + RoundUp(|arena|);
    var tupleOffsets, bucketOffsets := PlaceTuples(s, chains, chainsOffset);
    var buf := new Byte[totalSize](_ => 0);
    assert buf[..] == Zeros(totalSize);
    Fill(buf, s, chains, urlOffsets, titleStarts, refs, arena, postingOffsets, tupleOffsets, bucketOffsets);
    return buf[..];
  }
}
