/** The mapped index: LoadBlob and the readers that work straight on the bytes, and the
    round trip: what they read from a written blob is the builder's state. */
module BlobReading {
  import opened Wrappers
  import opened Bytes
  import opened Posting
  import opened IndexBuilding
  import opened BlobFormat

  // ---- what a blob can hold: every number fits its field, terms are free of NUL

  predicate FitsDocument(d: DocumentMetadata) {
    && IsI32(d.docId) && IsI32(d.hopDistance) && IsI32(d.bodyLength)
    && IsI32(d.startPosition) && IsI32(d.endPosition)
    && IsU64(d.pageFileRank) && IsU64(d.pageFileNum) && IsU64(d.pageFileIndex)
    && IsByteString(d.url) && forall w :: w in d.titleWords ==> IsByteString(w)
  }

  predicate FitsPosting(pl: PostingList) {
    && IsU32(|pl.posts|) && IsU32(|pl.seekAbsolutes|) && |pl.seekIndices| == |pl.seekAbsolutes|
    && IsI32(pl.lastAbsPos) && IsI32(pl.numDocs) && IsI32(pl.wordOccurrences) && IsI32(pl.lastDocId)
    && (forall p :: p in pl.posts ==> IsU32(p))
    && (forall a :: a in pl.seekAbsolutes ==> IsI32(a))
    && (forall i :: i in pl.seekIndices ==> IsI32(i))
  }

  predicate IsTerm(t: string) {
    IsByteString(t) && forall i :: 0 <= i < |t| ==> t[i] as int != 0
  }

  predicate FitsEntry(e: Entry) {
    IsTerm(e.term) && IsU64(e.hash) && FitsPosting(e.pl)
  }

  predicate FitsRange(d: DocumentMetadata) {
    IsI32(d.startPosition) && IsI32(d.endPosition)
  }

  // what a search reads: ranges, dictionary and lists
  ghost predicate FitsIndex(s: Snapshot) {
    && IsU64(TotalSize(s))
    && |s.documents| < 0x8000_0000
    && (forall d :: d in s.documents ==> FitsRange(d))
    && (forall e :: e in s.entries ==> FitsEntry(e))
    && (forall i, j :: 0 <= i < j < |s.entries| ==> s.entries[i].term != s.entries[j].term)
  }

  // what the metadata needs besides: the numbers of the documents, and 32 bits for the string
  // arena and the title references
  ghost predicate FitsMetadata(s: Snapshot) {
    && IsU32(ArenaSize(s.documents)) && IsU32(|TitleRefs(s.documents)|)
    && (forall d :: d in s.documents ==> FitsDocument(d))
  }

  ghost predicate Fits(s: Snapshot) {
    FitsIndex(s) && FitsMetadata(s)
  }

  const NO_METADATA := DocumentMetadata(0, "", [], -1, 0, 0, 0, 0, 0, 0)

  // what strcmp sees of a string
  function BeforeNul(s: string): string {
    if s == "" || s[0] as int == 0 then "" else [s[0]] + BeforeNul(s[1..])
  }

  // the bytes up to the first NUL
  function CString(bytes: seq<Byte>): seq<Byte> {
    if bytes == [] || bytes[0] == 0 then [] else [bytes[0]] + CString(bytes[1..])
  }

  class BlobIndex {
    var mapped: bool
    var base: seq<Byte>
    var nDocs: nat
    var nTerms: nat
    var docTableOffset: nat
    var titleRefsOffset: nat
    var dictOffset: nat
    var postingArenaOffset: nat
    var stringArenaOffset: nat

    // the mapped bytes are those written for s
    ghost predicate Holds(s: Snapshot)
      reads this
    {
      && mapped && base == Blob(s)
      && nDocs == |s.documents| && nTerms == |s.entries|
      && docTableOffset == HEADER_SIZE
      && titleRefsOffset == TitleRefsOffset(s)
      && dictOffset == DictOffset(s)
      && postingArenaOffset == PostingArenaOffset(s)
      && stringArenaOffset == StringArenaOffset(s)
    }

    constructor ()
      ensures !mapped
    {
      mapped, base := false, [];
      nDocs, nTerms, docTableOffset, titleRefsOffset, dictOffset, postingArenaOffset, stringArenaOffset :=
        0, 0, 0, 0, 0, 0, 0;
    }

    // None stands for a file that cannot be opened or mapped
    method LoadBlob(file: Option<seq<Byte>>) returns (ok: bool)
      modifies this
      ensures ok == mapped
      ensures ok <==>
                && file.Some? && |file.value| >= HEADER_SIZE
                && U64At(file.value, 0) == MAGIC && U64At(file.value, 8) == VERSION
      ensures forall s :: file == Some(Blob(s)) && FitsIndex(s) ==> ok && Holds(s)
    {
      hide Blob, TotalSize, TitleRefsOffset, DictOffset, PostingArenaOffset, StringArenaOffset, FromLittleEndian,
           FitsIndex;
      mapped := false;
      if file.None? || |file.value| < HEADER_SIZE {
        forall s ensures !(file == Some(Blob(s)) && FitsIndex(s)) {
          if file == Some(Blob(s)) && FitsIndex(s) {
            HeaderReads(s);
          }
        }
        return false;
      }
      var bytes := file.value;
      base := bytes;
      forall s | bytes == Blob(s) && FitsIndex(s)
        ensures && U64At(bytes, 0) == MAGIC && U64At(bytes, 8) == VERSION
                && U64At(bytes, 32) == |s.documents| && U64At(bytes, 40) == |s.entries|
                && U64At(bytes, 48) == HEADER_SIZE && U64At(bytes, 56) == TitleRefsOffset(s)
                && U64At(bytes, 64) == DictOffset(s) && U64At(bytes, 72) == PostingArenaOffset(s)
                && U64At(bytes, 80) == StringArenaOffset(s)
      {
        HeaderReads(s);
      }
      if U64At(bytes, 0) != MAGIC || U64At(bytes, 8) != VERSION {
        return false;
      }
      mapped := true;
      nDocs := U64At(bytes, 32);
      nTerms := U64At(bytes, 40);
      docTableOffset := U64At(bytes, 48);
      titleRefsOffset := U64At(bytes, 56);
      dictOffset := U64At(bytes, 64);
      postingArenaOffset := U64At(bytes, 72);
      stringArenaOffset := U64At(bytes, 80);
      return true;
    }

    // ---- document accessors

    method GetDocumentRange(docId: int, ghost s: Snapshot) returns (ok: bool, start: int, end: int)
      requires mapped ==> Holds(s) && FitsIndex(s)
      ensures ok <==> mapped && 0 <= docId < |s.documents|
      ensures ok ==> start == s.documents[docId].startPosition && end == s.documents[docId].endPosition
    {
      hide Blob, FitsIndex, TitleRefsOffset, DictOffset, PostingArenaOffset, StringArenaOffset, U32At,
           FromLittleEndian, ToI32;
      if !mapped || docId < 0 || docId >= nDocs {
        return false, 0, 0;
      }
      RangeReads(s, docId);
      var r := docTableOffset + docId * DOC_RECORD_SIZE;
      return true, I32At(base, r + 12), I32At(base, r + 16);
    }

    method GetDocumentMetadata(docId: int, ghost s: Snapshot) returns (m: DocumentMetadata)
      requires mapped ==> Holds(s) && Fits(s)
      ensures m == if mapped && 0 <= docId < |s.documents| then s.documents[docId] else NO_METADATA
    {
      hide Blob, Fits, TitleRefsOffset, DictOffset, PostingArenaOffset, StringArenaOffset, U32At, U64At,
           FromLittleEndian, ToI32, ArenaSize, TitleRefs;
      if !mapped || docId < 0 || docId >= nDocs {
        return NO_METADATA;
      }
      DocRecordReads(s, docId);
      var r := docTableOffset + docId * DOC_RECORD_SIZE;
      var urlOffset, urlLength := U32At(base, r + 48), U32At(base, r + 52);
      UrlReads(s, docId);
      var at := stringArenaOffset + urlOffset;
      var url := FromBytes(base[at..at + urlLength]);
      var titleWords := GetTitleWords(U32At(base, r + 56), U32At(base, r + 60), docId, s);
      m := DocumentMetadata(I32At(base, r), url, titleWords, I32At(base, r + 4), I32At(base, r + 8),
                            I32At(base, r + 12), I32At(base, r + 16),
                            U64At(base, r + 24), U64At(base, r + 32), U64At(base, r + 40));
    }

    // the run of references of one title, each back into the string arena
    method GetTitleWords(first: nat, count: nat, ghost docId: nat, ghost s: Snapshot) returns (words: seq<string>)
      requires Holds(s) && Fits(s) && docId < |s.documents|
      requires first == |TitleRefs(s.documents[..docId])| && count == |s.documents[docId].titleWords|
      ensures words == s.documents[docId].titleWords
    {
      hide Blob, Fits, TitleRefsOffset, DictOffset, PostingArenaOffset, StringArenaOffset, U32At, TitleRefs, WordOffset;
      words := [];
      for i := 0 to count
        invariant words == s.documents[docId].titleWords[..i]
      {
        TitleRefReads(s, docId, i);
        WordReads(s, docId, i);
        var ref := titleRefsOffset + (first + i) * TITLE_REF_SIZE;
        var at := stringArenaOffset + U32At(base, ref);
        words := words + [FromBytes(base[at..at + U32At(base, ref + 4)])];
      }
    }

    // ---- posting lists

    method MakeViewAt(offset: nat, ghost s: Snapshot, ghost i: nat) returns (pl: PostingList)
      requires Holds(s) && FitsIndex(s) && i < |s.entries|
      requires offset == PostingOffset(s.entries, PostingArenaOffset(s), i)
      ensures pl == s.entries[i].pl
    {
      hide Blob, FitsIndex, TitleRefsOffset, DictOffset, PostingArenaOffset, StringArenaOffset, U32At, I32At,
           PostingOffset;
      PostingReads(s, i);
      var posts, checkpoints := U32At(base, offset), U32At(base, offset + 4);
      var p := offset + POSTING_HEADER_SIZE;
      pl := PostingList(U32sAt(base, p, posts),
                        I32sAt(base, p + 4 * posts, checkpoints),
                        I32sAt(base, p + 4 * posts + 4 * checkpoints, checkpoints),
                        I32At(base, offset + 8), I32At(base, offset + 12),
                        I32At(base, offset + 16), I32At(base, offset + 20));
    }

    // ---- dictionary lookup

    // strcmp(st_term, term.c_str()) == 0
    method TermIsAt(at: nat, term: string, ghost t: seq<Byte>) returns (equal: bool)
      requires At(base, at, t + [0]) && forall i :: 0 <= i < |t| ==> t[i] != 0
      ensures equal <==> CString(ToBytes(term)) == t
    {
      hide CString, ToBytes;
      var bytes := ToBytes(term);
      var i := 0;
      assert t[..0] == [] && bytes[..0] == [];
      CStringFrom(bytes, 0);
      while true
        invariant 0 <= i <= |t| && i <= |bytes|
        invariant bytes[..i] == t[..i]
        invariant CString(bytes) == bytes[..i] + CString(bytes[i..])
        decreases |t| - i
      {
        var c := if i < |bytes| then bytes[i] else 0;
        assert base[at + i] == (t + [0])[i];
        CStringStep(bytes, t, i);
        if base[at + i] != c {
          return false;
        }
        if c == 0 {
          return true;
        }
        i := i + 1;
      }
    }

    // the posting list's offset, or 0: walk the bucket's chain to its zero sentinel. The hash
    // is of the whole string, the comparison goes up to its first NUL
    method FindTermOffset(term: string, hash: nat, ghost h: string -> nat, ghost s: Snapshot) returns (offset: nat)
      requires mapped ==> Holds(s) && FitsIndex(s) && HashedBy(s, h)
      requires IsByteString(term)
      ensures var t := BeforeNul(term);
              offset == if mapped && HasEntry(s, t) && h(t) == hash then
                          PostingOffset(s.entries, PostingArenaOffset(s), EntryIndex(s, t))
                        else 0
    {
      hide Blob, FitsIndex, TitleRefsOffset, DictOffset, PostingArenaOffset, StringArenaOffset, U64At, PostingOffset,
           ChainsOffsetIn, ChainsSize, TuplesSize, Buckets, Chain, BucketOffset, BeforeNul;
      if !mapped {
        return 0;
      }
      BucketsRead(s);
      var nBuckets := U64At(base, dictOffset);
      var b := hash % nBuckets;
      BucketReads(s, b);
      var off := U64At(base, dictOffset + 8 + 8 * b);
      ghost var chain := Chain(s.entries, Buckets(s), b);
      ghost var t := BeforeNul(term);
      if h(t) == hash {
        ChainHasEntry(s, h, t, b);
      }
      BucketOffsetIs(s, b);
      if off == 0 {
        return 0;
      }
      ghost var k := 0;
      while true
        invariant 0 <= k <= |chain| && chain != []
        invariant off == TupleOffset(s, b, k)
        invariant h(t) == hash ==> forall j :: 0 <= j < k ==> s.entries[chain[j]].term != t
        decreases |chain| - k
      {
        if k == |chain| {
          SentinelReads(s, b);
        } else {
          TupleReads(s, b, k);
          EntryFits(s, chain[k]);
          TermBytes(s.entries[chain[k]].term, term);
        }
        var length := U64At(base, off);
        if length == 0 {
          return 0;
        }
        var equal := false;
        if U64At(base, off + 16) == hash {
          equal := TermIsAt(off + TUPLE_HEADER_SIZE, term, ToBytes(s.entries[chain[k]].term));
        }
        if equal {
          EntryIsUnique(s, t, chain[k]);
          return U64At(base, off + 8);
        }
        NextTupleOffset(s, b, k);
        off := off + length;
        k := k + 1;
      }
    }

    method GetPostingList(term: string, hash: nat, ghost h: string -> nat, ghost s: Snapshot)
      returns (r: Option<PostingList>)
      requires mapped ==> Holds(s) && FitsIndex(s) && HashedBy(s, h)
      requires IsByteString(term)
      ensures var t := BeforeNul(term);
              r == if mapped && HasEntry(s, t) && h(t) == hash then Some(s.entries[EntryIndex(s, t)].pl) else None
    {
      hide BeforeNul, Blob, FitsIndex, PostingOffset, PostingArenaOffset, TitleRefsOffset, DictOffset,
           StringArenaOffset;
      var off := FindTermOffset(term, hash, h, s);
      ghost var t := BeforeNul(term);
      if mapped && HasEntry(s, t) && h(t) == hash {
        OffsetIsNotZero(s, EntryIndex(s, t));
      }
      if off == 0 {
        return None;
      }
      var pl := MakeViewAt(off, s, EntryIndex(s, t));
      return Some(pl);
    }
  }

  lemma HeaderReads(s: Snapshot)
    requires FitsIndex(s)
    ensures var bytes := Blob(s);
            && |bytes| >= HEADER_SIZE
            && U64At(bytes, 0) == MAGIC && U64At(bytes, 8) == VERSION
            && U64At(bytes, 32) == |s.documents| && U64At(bytes, 40) == |s.entries|
            && U64At(bytes, 48) == HEADER_SIZE && U64At(bytes, 56) == TitleRefsOffset(s)
            && U64At(bytes, 64) == DictOffset(s) && U64At(bytes, 72) == PostingArenaOffset(s)
            && U64At(bytes, 80) == StringArenaOffset(s)
  {
    hide Blob, HeaderBytes, U64, U64At, TotalSize, TitleRefsOffset, DictOffset, PostingArenaOffset, StringArenaOffset;
    SectionsStand(s);
    HeaderFields(s);
    HeaderFits(s);
    HeaderField(s, 0, MAGIC);
    HeaderField(s, 8, VERSION);
    HeaderField(s, 32, |s.documents|);
    HeaderField(s, 40, |s.entries|);
    HeaderField(s, 48, HEADER_SIZE);
    HeaderField(s, 56, TitleRefsOffset(s));
    HeaderField(s, 64, DictOffset(s));
    HeaderField(s, 72, PostingArenaOffset(s));
    HeaderField(s, 80, StringArenaOffset(s));
  }

  lemma HeaderField(s: Snapshot, k: nat, n: nat)
    requires At(HeaderBytes(s), k, U64(n)) && IsU64(n)
    ensures k + 8 <= |Blob(s)| && U64At(Blob(s), k) == n
  {
    hide Blob, HeaderBytes, U64, U64At, At;
    HeaderStands(s);
    U64Field(Blob(s), 0, HeaderBytes(s), k, n);
  }

  lemma HeaderFits(s: Snapshot)
    requires FitsIndex(s)
    ensures HEADER_SIZE <= TotalSize(s)
    ensures IsU64(|s.documents|) && IsU64(|s.entries|) && IsU64(TitleRefsOffset(s)) && IsU64(DictOffset(s))
    ensures IsU64(PostingArenaOffset(s)) && IsU64(StringArenaOffset(s)) && IsU64(Buckets(s))
  {
    hide ChainsSize, OffsetOf, ArenaSize, TitleRefs, BucketCount, RoundUp;
    BucketsBound(s);
  }

  lemma BucketsBound(s: Snapshot)
    ensures |s.entries| <= Buckets(s)
  {
  }

  lemma HeaderFields(s: Snapshot)
    ensures var h := HeaderBytes(s);
            && At(h, 0, U64(MAGIC)) && At(h, 8, U64(VERSION))
            && At(h, 32, U64(|s.documents|)) && At(h, 40, U64(|s.entries|))
            && At(h, 48, U64(HEADER_SIZE)) && At(h, 56, U64(TitleRefsOffset(s)))
            && At(h, 64, U64(DictOffset(s))) && At(h, 72, U64(PostingArenaOffset(s)))
            && At(h, 80, U64(StringArenaOffset(s)))
  {
    hide U64, I64, TotalSize, TitleRefsOffset, DictOffset, PostingArenaOffset, StringArenaOffset;
  }

  // the header in numbers: eight letters, the version, sizes and counts, and where the first
  // sections begin
  lemma HeaderInNumbers(s: Snapshot)
    ensures var h, docs := Blob(s), 128 + 64 * |s.documents|;
            && At(h, 0, [0x42, 0x4C, 0x42, 0x58, 0x45, 0x44, 0x4E, 0x49]) && At(h, 8, U64(4))
            && At(h, 16, U64(|h|)) && At(h, 24, I64(s.position))
            && At(h, 32, U64(|s.documents|)) && At(h, 40, U64(|s.entries|))
            && At(h, 48, U64(128)) && At(h, 56, U64(docs)) && At(h, 64, U64(docs + 8 * |TitleRefs(s.documents)|))
            && At(h, 88, Zeros(40))
  {
    hide Blob, HeaderBytes, U64, I64, TotalSize, PostingArenaOffset, StringArenaOffset, TitleRefs, At;
    BlobSize(s);
    HeaderFields(s);
    OtherHeaderFields(s);
    MagicIs();
    HeaderPart(s, 0, U64(MAGIC));
    HeaderPart(s, 8, U64(4));
    HeaderPart(s, 16, U64(TotalSize(s)));
    HeaderPart(s, 24, I64(s.position));
    HeaderPart(s, 32, U64(|s.documents|));
    HeaderPart(s, 40, U64(|s.entries|));
    HeaderPart(s, 48, U64(128));
    HeaderPart(s, 56, U64(TitleRefsOffset(s)));
    HeaderPart(s, 64, U64(DictOffset(s)));
    HeaderPart(s, 88, Zeros(40));
  }

  lemma BlobSize(s: Snapshot)
    ensures |Blob(s)| == TotalSize(s)
  {
    hide Blob, TotalSize, At;
    SectionsStand(s);
  }

  lemma MagicIs()
    ensures U64(MAGIC) == [0x42, 0x4C, 0x42, 0x58, 0x45, 0x44, 0x4E, 0x49]
  {
    hide U64, U32;
    FieldsInNumbers(MAGIC);
    FieldsInNumbers(MAGIC / 4294967296);
  }

  lemma HeaderPart(s: Snapshot, k: nat, piece: seq<Byte>)
    requires At(HeaderBytes(s), k, piece)
    ensures At(Blob(s), k, piece)
  {
    hide Blob, HeaderBytes, At;
    HeaderStands(s);
    AtPart(Blob(s), 0, HeaderBytes(s), k, piece);
  }

  lemma OtherHeaderFields(s: Snapshot)
    ensures var h := HeaderBytes(s);
            At(h, 16, U64(TotalSize(s))) && At(h, 24, I64(s.position)) && At(h, 88, Zeros(40))
  {
    hide U64, I64, TotalSize, TitleRefsOffset, DictOffset, PostingArenaOffset, StringArenaOffset;
  }

  // a dictionary entry: three numbers and the term, with one to eight NULs up to a multiple of 8
  lemma TupleInNumbers(e: Entry, postingOffset: nat) returns (k: nat)
    ensures 1 <= k <= 8 && |TupleBytes(e, postingOffset)| == 24 + |e.term| + k
    ensures |TupleBytes(e, postingOffset)| % 8 == 0
    ensures TupleBytes(e, postingOffset) ==
            U64(24 + |e.term| + k) + U64(postingOffset) + U64(e.hash) + ToBytes(e.term) + Zeros(k)
  {
    hide U64;
    k := TupleSize(e.term) - 24 - |e.term|;
  }

  // a posting list: six numbers and three arrays, with NULs up to a multiple of 8
  lemma PostingInNumbers(pl: PostingList) returns (k: nat)
    ensures k <= 7 && |PostingBytes(pl)| == 24 + 4 * |pl.posts| + 4 * |pl.seekAbsolutes| + 4 * |pl.seekIndices| + k
    ensures |PostingBytes(pl)| % 8 == 0
    ensures PostingBytes(pl) ==
            U32(|pl.posts|) + U32(|pl.seekAbsolutes|) + I32(pl.lastAbsPos) + I32(pl.numDocs) +
            I32(pl.wordOccurrences) + I32(pl.lastDocId) +
            U32s(pl.posts) + I32s(pl.seekAbsolutes) + I32s(pl.seekIndices) + Zeros(k)
  {
    hide U32, I32;
    k := PostingSize(pl) - PostingRawSize(pl);
  }

  // ---- document records

  lemma RecordFields(a: seq<Byte>, b: seq<Byte>, c: seq<Byte>, d: seq<Byte>, e: seq<Byte>, f: seq<Byte>, g: seq<Byte>,
                     h: seq<Byte>, i: seq<Byte>, j: seq<Byte>, k: seq<Byte>, l: seq<Byte>, m: seq<Byte>)
    requires |a| == |b| == |c| == |d| == |e| == |f| == |j| == |k| == |l| == |m| == 4
    requires |g| == |h| == |i| == 8
    ensures var r := a + b + c + d + e + f + g + h + i + j + k + l + m;
            && At(r, 0, a) && At(r, 4, b) && At(r, 8, c) && At(r, 12, d) && At(r, 16, e)
            && At(r, 24, g) && At(r, 32, h) && At(r, 40, i)
            && At(r, 48, j) && At(r, 52, k) && At(r, 56, l) && At(r, 60, m)
  {
  }

  lemma DocRecordStands(s: Snapshot, i: nat)
    requires i < |s.documents|
    ensures At(Blob(s), HEADER_SIZE + i * DOC_RECORD_SIZE, DocRecordBytes(s.documents, i))
  {
    hide Blob, DocRecordBytes, Concat, OffsetOf, At;
    DocRecordsStand(s);
    var parts := DocRecords(s);
    AtOffset(parts, i);
    EqualParts(parts, DOC_RECORD_SIZE, i);
    AtPart(Blob(s), HEADER_SIZE, Concat(parts), i * DOC_RECORD_SIZE, parts[i]);
  }

  lemma DocRecordReads(s: Snapshot, i: nat)
    requires Fits(s) && i < |s.documents|
    ensures var base, r, d := Blob(s), HEADER_SIZE + i * DOC_RECORD_SIZE, s.documents[i];
            && r + DOC_RECORD_SIZE <= |base|
            && I32At(base, r) == d.docId && I32At(base, r + 4) == d.hopDistance && I32At(base, r + 8) == d.bodyLength
            && I32At(base, r + 12) == d.startPosition && I32At(base, r + 16) == d.endPosition
            && U64At(base, r + 24) == d.pageFileRank && U64At(base, r + 32) == d.pageFileNum
            && U64At(base, r + 40) == d.pageFileIndex
            && U32At(base, r + 48) == ArenaSize(s.documents[..i]) && U32At(base, r + 52) == |d.url|
            && U32At(base, r + 56) == |TitleRefs(s.documents[..i])| && U32At(base, r + 60) == |d.titleWords|
  {
    hide Blob, I32At, U32At, U64At, I32, U32, U64, ArenaSize, TitleRefs, At, DocRecordBytes, TotalSize, FitsEntry;
    DocRecordStands(s, i);
    DocRecordHas(s.documents, i);
    DocumentFits(s, i);
    var base, r, d := Blob(s), HEADER_SIZE + i * DOC_RECORD_SIZE, s.documents[i];
    var rec := DocRecordBytes(s.documents, i);
    I32Field(base, r, rec, 0, d.docId);
    I32Field(base, r, rec, 4, d.hopDistance);
    I32Field(base, r, rec, 8, d.bodyLength);
    I32Field(base, r, rec, 12, d.startPosition);
    I32Field(base, r, rec, 16, d.endPosition);
    U64Field(base, r, rec, 24, d.pageFileRank);
    U64Field(base, r, rec, 32, d.pageFileNum);
    U64Field(base, r, rec, 40, d.pageFileIndex);
    U32Field(base, r, rec, 48, ArenaSize(s.documents[..i]));
    U32Field(base, r, rec, 52, |d.url|);
    U32Field(base, r, rec, 56, |TitleRefs(s.documents[..i])|);
    U32Field(base, r, rec, 60, |d.titleWords|);
    AtLength(base, r, rec);
  }

  lemma RangeReads(s: Snapshot, i: nat)
    requires FitsIndex(s) && i < |s.documents|
    ensures var base, r, d := Blob(s), HEADER_SIZE + i * DOC_RECORD_SIZE, s.documents[i];
            && r + DOC_RECORD_SIZE <= |base|
            && I32At(base, r + 12) == d.startPosition && I32At(base, r + 16) == d.endPosition
  {
    hide Blob, I32At, U32At, U64At, I32, U32, U64, ArenaSize, TitleRefs, At, DocRecordBytes, TotalSize, FitsEntry;
    DocRecordStands(s, i);
    DocRecordHas(s.documents, i);
    var base, r, d := Blob(s), HEADER_SIZE + i * DOC_RECORD_SIZE, s.documents[i];
    assert d in s.documents;
    var rec := DocRecordBytes(s.documents, i);
    I32Field(base, r, rec, 12, d.startPosition);
    I32Field(base, r, rec, 16, d.endPosition);
    AtLength(base, r, rec);
  }

  lemma AtLength(base: seq<Byte>, offset: nat, part: seq<Byte>)
    requires At(base, offset, part)
    ensures offset + |part| <= |base|
  {
  }

  lemma U64Field(base: seq<Byte>, offset: nat, rec: seq<Byte>, k: nat, n: nat)
    requires At(base, offset, rec) && At(rec, k, U64(n)) && IsU64(n)
    ensures offset + k + 8 <= |base| && U64At(base, offset + k) == n
  {
    hide U64, U64At;
    AtPart(base, offset, rec, k, U64(n));
    ReadU64(base, offset + k, n);
  }

  lemma U32Field(base: seq<Byte>, offset: nat, rec: seq<Byte>, k: nat, n: nat)
    requires At(base, offset, rec) && At(rec, k, U32(n)) && IsU32(n)
    ensures offset + k + 4 <= |base| && U32At(base, offset + k) == n
  {
    hide U32, U32At;
    AtPart(base, offset, rec, k, U32(n));
    ReadU32(base, offset + k, n);
  }

  lemma I32Field(base: seq<Byte>, offset: nat, rec: seq<Byte>, k: nat, n: int)
    requires At(base, offset, rec) && At(rec, k, I32(n)) && IsI32(n)
    ensures offset + k + 4 <= |base| && I32At(base, offset + k) == n
  {
    hide I32, I32At;
    AtPart(base, offset, rec, k, I32(n));
    ReadI32(base, offset + k, n);
  }

  lemma DocRecordHas(documents: seq<DocumentMetadata>, i: nat)
    requires i < |documents|
    ensures var r, d := DocRecordBytes(documents, i), documents[i];
            && At(r, 0, I32(d.docId)) && At(r, 4, I32(d.hopDistance)) && At(r, 8, I32(d.bodyLength))
            && At(r, 12, I32(d.startPosition)) && At(r, 16, I32(d.endPosition))
            && At(r, 24, U64(d.pageFileRank)) && At(r, 32, U64(d.pageFileNum)) && At(r, 40, U64(d.pageFileIndex))
            && At(r, 48, U32(ArenaSize(documents[..i]))) && At(r, 52, U32(|d.url|))
            && At(r, 56, U32(|TitleRefs(documents[..i])|)) && At(r, 60, U32(|d.titleWords|))
  {
    hide At, I32, U32, U64, ArenaSize, TitleRefs;
    var d := documents[i];
    RecordFields(I32(d.docId), I32(d.hopDistance), I32(d.bodyLength), I32(d.startPosition), I32(d.endPosition), U32(0),
                 U64(d.pageFileRank), U64(d.pageFileNum), U64(d.pageFileIndex),
                 U32(ArenaSize(documents[..i])), U32(|d.url|),
                 U32(|TitleRefs(documents[..i])|), U32(|d.titleWords|));
  }

  // ---- the string arena and the title references: a document's share of them

  lemma {:induction false} ArenaPart(documents: seq<DocumentMetadata>, i: nat)
    requires i < |documents|
    ensures var d := documents[i];
            At(Arena(documents), ArenaSize(documents[..i]), ToBytes(d.url) + WordsArena(d.titleWords))
    ensures ArenaSize(documents[..i]) + |documents[i].url| + WordsSize(documents[i].titleWords) <= ArenaSize(documents)
  {
    hide WordsArena, WordsSize, Arena, At;
    var n := |documents| - 1;
    var init, d := documents[..n], documents[n];
    ArenaAppends(documents);
    ArenaLength(init);
    WordsArenaLength(d.titleWords);
    if i < n {
      ArenaPart(init, i);
      assert init[..i] == documents[..i];
      var part := ToBytes(init[i].url) + WordsArena(init[i].titleWords);
      AtConcat([], Arena(init), ToBytes(d.url) + WordsArena(d.titleWords));
      assert [] + Arena(init) + (ToBytes(d.url) + WordsArena(d.titleWords)) == Arena(documents);
      AtPart(Arena(documents), 0, Arena(init), ArenaSize(init[..i]), part);
    } else {
      AtConcat(Arena(init), ToBytes(d.url) + WordsArena(d.titleWords), []);
      assert Arena(init) + (ToBytes(d.url) + WordsArena(d.titleWords)) + [] == Arena(documents);
    }
  }

  lemma ArenaAppends(documents: seq<DocumentMetadata>)
    requires documents != []
    ensures var n := |documents| - 1;
            Arena(documents) ==
            Arena(documents[..n]) + (ToBytes(documents[n].url) + WordsArena(documents[n].titleWords))
  {
    hide WordsArena, ToBytes;
  }

  lemma {:induction false} WordPart(words: seq<string>, j: nat)
    requires j < |words|
    ensures At(WordsArena(words), WordsSize(words[..j]), ToBytes(words[j]))
    ensures WordsSize(words[..j]) + |words[j]| <= WordsSize(words)
  {
    var n := |words| - 1;
    WordsArenaLength(words[..n]);
    if j < n {
      WordPart(words[..n], j);
      assert words[..n][..j] == words[..j];
      AtConcat([], WordsArena(words[..n]), ToBytes(words[n]));
      assert [] + WordsArena(words[..n]) + ToBytes(words[n]) == WordsArena(words);
      AtPart(WordsArena(words), 0, WordsArena(words[..n]), WordsSize(words[..j]), ToBytes(words[j]));
    } else {
      AtConcat(WordsArena(words[..n]), ToBytes(words[n]), []);
      assert WordsArena(words[..n]) + ToBytes(words[n]) + [] == WordsArena(words);
    }
  }

  lemma {:induction false} WordRefAt(words: seq<string>, offset: nat, j: nat)
    requires j < |words|
    ensures WordRefs(words, offset)[j] == TitleRef(offset + WordsSize(words[..j]), |words[j]|)
  {
    var n := |words| - 1;
    if j < n {
      WordRefAt(words[..n], offset, j);
      assert words[..n][..j] == words[..j];
    }
  }

  lemma {:induction false} TitleRefAt(documents: seq<DocumentMetadata>, i: nat, j: nat)
    requires i < |documents| && j < |documents[i].titleWords|
    ensures var at := |TitleRefs(documents[..i])| + j;
            && at < |TitleRefs(documents)|
            && TitleRefs(documents)[at] ==
                 TitleRef(ArenaSize(documents[..i]) + |documents[i].url| + WordsSize(documents[i].titleWords[..j]),
                          |documents[i].titleWords[j]|)
  {
    hide ArenaSize, WordRefs, WordsSize;
    var n := |documents| - 1;
    if i < n {
      TitleRefAt(documents[..n], i, j);
      assert documents[..n][..i] == documents[..i];
    } else {
      WordRefAt(documents[n].titleWords, ArenaSize(documents[..n]) + |documents[n].url|, j);
    }
  }

  lemma ArenaStands(s: Snapshot, offset: nat, piece: seq<Byte>)
    requires At(Arena(s.documents), offset, piece)
    ensures At(Blob(s), StringArenaOffset(s) + offset, piece)
  {
    hide Blob, Arena, StringArenaOffset, RoundUp, ArenaSize, At;
    ArenaLength(s.documents);
    StringArenaStands(s);
    var pad := Zeros(RoundUp(ArenaSize(s.documents)) - ArenaSize(s.documents));
    AtConcat([], Arena(s.documents), pad);
    assert [] + Arena(s.documents) + pad == ArenaBytes(s);
    AtPart(ArenaBytes(s), 0, Arena(s.documents), offset, piece);
    AtPart(Blob(s), StringArenaOffset(s), ArenaBytes(s), offset, piece);
  }

  lemma DocumentFits(s: Snapshot, i: nat)
    requires Fits(s) && i < |s.documents|
    ensures FitsDocument(s.documents[i])
    ensures IsU32(ArenaSize(s.documents[..i])) && IsU32(|s.documents[i].url|)
    ensures IsU32(|TitleRefs(s.documents[..i])|) && IsU32(|s.documents[i].titleWords|)
  {
    hide TotalSize, ArenaSize, TitleRefs, FitsDocument, FitsEntry;
    assert s.documents[i] in s.documents;
    ArenaPart(s.documents, i);
    TitleRefsGrow(s.documents, i);
  }

  lemma {:induction false} TitleRefsGrow(documents: seq<DocumentMetadata>, i: nat)
    requires i < |documents|
    ensures |TitleRefs(documents[..i])| + |documents[i].titleWords| <= |TitleRefs(documents)|
  {
    hide ArenaSize, WordRefs;
    var n := |documents| - 1;
    if i < n {
      TitleRefsGrow(documents[..n], i);
      assert documents[..n][..i] == documents[..i];
    }
  }

  lemma UrlReads(s: Snapshot, i: nat)
    requires Fits(s) && i < |s.documents|
    ensures StringAt(Blob(s), StringArenaOffset(s) + ArenaSize(s.documents[..i]), s.documents[i].url)
  {
    hide Blob, StringArenaOffset, ArenaSize, Arena, WordsArena, TotalSize;
    var d := s.documents[i];
    ArenaPart(s.documents, i);
    var url, rest := ToBytes(d.url), WordsArena(d.titleWords);
    AtConcat([], url, rest);
    assert [] + url + rest == url + rest;
    AtPart(Arena(s.documents), ArenaSize(s.documents[..i]), url + rest, 0, url);
    ArenaStands(s, ArenaSize(s.documents[..i]), url);
    DocumentFits(s, i);
    BytesRoundTrip(d.url);
  }

  // where word j of title i stands in the string arena
  ghost function WordOffset(documents: seq<DocumentMetadata>, i: nat, j: nat): nat
    requires i < |documents| && j < |documents[i].titleWords|
  {
    ArenaSize(documents[..i]) + |documents[i].url| + WordsSize(documents[i].titleWords[..j])
  }

  ghost function TitleRefOffset(s: Snapshot, i: nat, j: nat): nat
    requires i < |s.documents| && j < |s.documents[i].titleWords|
  {
    TitleRefsOffset(s) + (|TitleRefs(s.documents[..i])| + j) * TITLE_REF_SIZE
  }

  ghost predicate StringAt(base: seq<Byte>, at: nat, w: string) {
    at + |w| <= |base| && FromBytes(base[at..at + |w|]) == w
  }

  lemma TitleRefReads(s: Snapshot, i: nat, j: nat)
    requires Fits(s) && i < |s.documents| && j < |s.documents[i].titleWords|
    ensures var ref := TitleRefOffset(s, i, j);
            && ref + TITLE_REF_SIZE <= |Blob(s)|
            && U32At(Blob(s), ref) == WordOffset(s.documents, i, j)
            && U32At(Blob(s), ref + 4) == |s.documents[i].titleWords[j]|
  {
    hide Blob, TitleRefsOffset, TitleRefs, U32, U32At, At, Concat, OffsetOf, ArenaSize, WordsSize, Fits, FitsDocument,
         TitleRefBytes;
    var k := |TitleRefs(s.documents[..i])| + j;
    TitleRefAt(s.documents, i, j);
    TitleRefFits(s, i, j);
    TitleRefsStand(s);
    var refs := TitleRefs(s.documents);
    var parts := TitleRefRecords(refs);
    AtOffset(parts, k);
    TitleRefHas(refs[k]);
    TitleRefSizes(refs);
    EqualParts(parts, TITLE_REF_SIZE, k);
    AtPart(Blob(s), TitleRefsOffset(s), Concat(parts), k * TITLE_REF_SIZE, parts[k]);
    var ref := TitleRefOffset(s, i, j);
    U32Field(Blob(s), ref, parts[k], 0, refs[k].offset);
    U32Field(Blob(s), ref, parts[k], 4, refs[k].length);
  }

  lemma TitleRefSizes(refs: seq<TitleRef>)
    ensures forall k :: 0 <= k < |refs| ==> |TitleRefRecords(refs)[k]| == TITLE_REF_SIZE
  {
    hide U32;
  }

  lemma TitleRefFits(s: Snapshot, i: nat, j: nat)
    requires Fits(s) && i < |s.documents| && j < |s.documents[i].titleWords|
    ensures IsU32(WordOffset(s.documents, i, j)) && IsU32(|s.documents[i].titleWords[j]|)
  {
    hide TotalSize, ArenaSize, TitleRefs, WordsSize, FitsDocument, FitsEntry, At, Arena, WordsArena;
    ArenaPart(s.documents, i);
    WordPart(s.documents[i].titleWords, j);
  }

  lemma TitleRefHas(r: TitleRef)
    ensures At(TitleRefBytes(r), 0, U32(r.offset)) && At(TitleRefBytes(r), 4, U32(r.length))
    ensures |TitleRefBytes(r)| == 8
  {
    hide U32;
  }

  lemma WordReads(s: Snapshot, i: nat, j: nat)
    requires Fits(s) && i < |s.documents| && j < |s.documents[i].titleWords|
    ensures StringAt(Blob(s), StringArenaOffset(s) + WordOffset(s.documents, i, j), s.documents[i].titleWords[j])
  {
    hide Blob, StringArenaOffset, ArenaSize, Arena, WordsArena, TotalSize, WordsSize;
    var d := s.documents[i];
    var w := d.titleWords[j];
    ArenaPart(s.documents, i);
    WordPart(d.titleWords, j);
    var url, rest := ToBytes(d.url), WordsArena(d.titleWords);
    AtConcat(url, rest, []);
    assert url + rest + [] == url + rest;
    AtPart(url + rest, |d.url|, rest, WordsSize(d.titleWords[..j]), ToBytes(w));
    var inner := |d.url| + WordsSize(d.titleWords[..j]);
    AtPart(Arena(s.documents), ArenaSize(s.documents[..i]), url + rest, inner, ToBytes(w));
    ArenaStands(s, ArenaSize(s.documents[..i]) + inner, ToBytes(w));
    DocumentFits(s, i);
    assert w in d.titleWords;
    BytesRoundTrip(w);
  }

  // ---- posting lists

  function U32sAt(base: seq<Byte>, offset: nat, n: nat): seq<nat>
    requires offset + 4 * n <= |base|
  {
    seq(n, k requires 0 <= k < n => U32At(base, offset + 4 * k))
  }

  function I32sAt(base: seq<Byte>, offset: nat, n: nat): seq<int>
    requires offset + 4 * n <= |base|
  {
    seq(n, k requires 0 <= k < n => I32At(base, offset + 4 * k))
  }

  lemma {:induction false} U32sElement(values: seq<nat>, k: nat)
    requires k < |values|
    ensures At(U32s(values), 4 * k, U32(values[k]))
  {
    hide U32, At;
    var n := |values| - 1;
    var before, last := U32s(values[..n]), U32(values[n]);
    assert U32s(values) == before + last;
    if k < n {
      U32sElement(values[..n], k);
      AtConcat([], before, last);
      assert [] + before + last == before + last;
      AtPart(U32s(values), 0, before, 4 * k, U32(values[k]));
    } else {
      AtConcat(before, last, []);
      assert before + last + [] == before + last;
    }
  }

  lemma {:induction false} I32sElement(values: seq<int>, k: nat)
    requires k < |values|
    ensures At(I32s(values), 4 * k, I32(values[k]))
  {
    hide I32, At;
    var n := |values| - 1;
    var before, last := I32s(values[..n]), I32(values[n]);
    assert I32s(values) == before + last;
    if k < n {
      I32sElement(values[..n], k);
      AtConcat([], before, last);
      assert [] + before + last == before + last;
      AtPart(I32s(values), 0, before, 4 * k, I32(values[k]));
    } else {
      AtConcat(before, last, []);
      assert before + last + [] == before + last;
    }
  }

  lemma U32sRead(base: seq<Byte>, offset: nat, values: seq<nat>)
    requires At(base, offset, U32s(values)) && forall v :: v in values ==> IsU32(v)
    ensures offset + 4 * |values| <= |base| && U32sAt(base, offset, |values|) == values
  {
    hide U32s, U32, U32At, U32sAt, At;
    AtLength(base, offset, U32s(values));
    forall k | 0 <= k < |values| ensures U32At(base, offset + 4 * k) == values[k] {
      U32sElement(values, k);
      U32Field(base, offset, U32s(values), 4 * k, values[k]);
    }
    AllU32(base, offset, values);
  }

  lemma AllU32(base: seq<Byte>, offset: nat, values: seq<nat>)
    requires offset + 4 * |values| <= |base|
    requires forall k :: 0 <= k < |values| ==> U32At(base, offset + 4 * k) == values[k]
    ensures U32sAt(base, offset, |values|) == values
  {
    hide U32At;
  }

  lemma I32sRead(base: seq<Byte>, offset: nat, values: seq<int>)
    requires At(base, offset, I32s(values)) && forall v :: v in values ==> IsI32(v)
    ensures offset + 4 * |values| <= |base| && I32sAt(base, offset, |values|) == values
  {
    hide I32s, I32, I32At, I32sAt, At;
    AtLength(base, offset, I32s(values));
    forall k | 0 <= k < |values| ensures I32At(base, offset + 4 * k) == values[k] {
      I32sElement(values, k);
      I32Field(base, offset, I32s(values), 4 * k, values[k]);
    }
    AllI32(base, offset, values);
  }

  lemma AllI32(base: seq<Byte>, offset: nat, values: seq<int>)
    requires offset + 4 * |values| <= |base|
    requires forall k :: 0 <= k < |values| ==> I32At(base, offset + 4 * k) == values[k]
    ensures I32sAt(base, offset, |values|) == values
  {
    hide I32At;
  }

  lemma FiveParts(a: seq<Byte>, b: seq<Byte>, c: seq<Byte>, d: seq<Byte>, e: seq<Byte>)
    ensures var r := a + b + c + d + e;
            && At(r, 0, a) && At(r, |a|, b) && At(r, |a| + |b|, c) && At(r, |a| + |b| + |c|, d)
            && At(r, |a| + |b| + |c| + |d|, e)
  {
  }

  lemma PostingStands(s: Snapshot, i: nat)
    requires i < |s.entries|
    ensures At(Blob(s), PostingOffset(s.entries, PostingArenaOffset(s), i), PostingBytes(s.entries[i].pl))
  {
    hide Blob, PostingBytes, PostingArenaOffset, Concat, OffsetOf, At;
    PostingsStand(s);
    var parts := PostingParts(s.entries);
    AtOffset(parts, i);
    AtPart(Blob(s), PostingArenaOffset(s), Concat(parts), OffsetOf(parts, i), parts[i]);
  }

  lemma PostingHeaderHas(pl: PostingList)
    ensures var r := PostingHeaderBytes(pl);
            && At(r, 0, U32(|pl.posts|)) && At(r, 4, U32(|pl.seekAbsolutes|))
            && At(r, 8, I32(pl.lastAbsPos)) && At(r, 12, I32(pl.numDocs))
            && At(r, 16, I32(pl.wordOccurrences)) && At(r, 20, I32(pl.lastDocId))
  {
    hide U32, I32;
  }

  lemma EntryFits(s: Snapshot, i: nat)
    requires FitsIndex(s) && i < |s.entries|
    ensures FitsEntry(s.entries[i])
  {
    hide TotalSize, ArenaSize, TitleRefs, FitsDocument, FitsEntry;
    assert s.entries[i] in s.entries;
  }

  lemma PostingReads(s: Snapshot, i: nat)
    requires FitsIndex(s) && i < |s.entries|
    ensures var base, at, pl := Blob(s), PostingOffset(s.entries, PostingArenaOffset(s), i), s.entries[i].pl;
            var p := at + POSTING_HEADER_SIZE;
            && p + 4 * |pl.posts| + 8 * |pl.seekAbsolutes| <= |base|
            && U32At(base, at) == |pl.posts| && U32At(base, at + 4) == |pl.seekAbsolutes|
            && I32At(base, at + 8) == pl.lastAbsPos && I32At(base, at + 12) == pl.numDocs
            && I32At(base, at + 16) == pl.wordOccurrences && I32At(base, at + 20) == pl.lastDocId
            && U32sAt(base, p, |pl.posts|) == pl.posts
            && I32sAt(base, p + 4 * |pl.posts|, |pl.seekAbsolutes|) == pl.seekAbsolutes
            && I32sAt(base, p + 4 * |pl.posts| + 4 * |pl.seekAbsolutes|, |pl.seekAbsolutes|) == pl.seekIndices
  {
    hide Blob, PostingOffset, PostingArenaOffset, PostingHeaderBytes, U32s, I32s, U32, I32, U32At, I32At, At, FitsIndex,
         U32sAt, I32sAt, RoundUp;
    var base, at, pl := Blob(s), PostingOffset(s.entries, PostingArenaOffset(s), i), s.entries[i].pl;
    EntryFits(s, i);
    PostingStands(s, i);
    var h, a, b, c := PostingHeaderBytes(pl), U32s(pl.posts), I32s(pl.seekAbsolutes), I32s(pl.seekIndices);
    var rec := PostingBytes(pl);
    FiveParts(h, a, b, c, Zeros(PostingSize(pl) - PostingRawSize(pl)));
    AtPart(base, at, rec, 0, h);
    AtPart(base, at, rec, |h|, a);
    AtPart(base, at, rec, |h| + |a|, b);
    AtPart(base, at, rec, |h| + |a| + |b|, c);
    PostingHeaderHas(pl);
    U32Field(base, at, h, 0, |pl.posts|);
    U32Field(base, at, h, 4, |pl.seekAbsolutes|);
    I32Field(base, at, h, 8, pl.lastAbsPos);
    I32Field(base, at, h, 12, pl.numDocs);
    I32Field(base, at, h, 16, pl.wordOccurrences);
    I32Field(base, at, h, 20, pl.lastDocId);
    U32sRead(base, at + |h|, pl.posts);
    I32sRead(base, at + |h| + |a|, pl.seekAbsolutes);
    I32sRead(base, at + |h| + |a| + |b|, pl.seekIndices);
  }

  lemma OffsetIsNotZero(s: Snapshot, i: nat)
    requires i < |s.entries|
    ensures PostingOffset(s.entries, PostingArenaOffset(s), i) > 0
  {
    hide OffsetOf, ChainsSize, TitleRefs, Buckets;
  }

  // ---- the dictionary

  ghost predicate HashedBy(s: Snapshot, h: string -> nat) {
    forall e :: e in s.entries ==> e.hash == h(e.term)
  }

  ghost predicate HasEntry(s: Snapshot, term: string) {
    exists i :: 0 <= i < |s.entries| && s.entries[i].term == term
  }

  ghost function EntryIndex(s: Snapshot, term: string): (i: nat)
    requires HasEntry(s, term)
    ensures i < |s.entries| && s.entries[i].term == term
  {
    var i :| 0 <= i < |s.entries| && s.entries[i].term == term;
    i
  }

  lemma EntryIsUnique(s: Snapshot, term: string, i: nat)
    requires FitsIndex(s) && i < |s.entries| && s.entries[i].term == term
    ensures HasEntry(s, term) && EntryIndex(s, term) == i
  {
    hide TotalSize, ArenaSize, TitleRefs, FitsDocument, FitsEntry;
  }

  lemma CStringFrom(bytes: seq<Byte>, i: nat)
    requires i == 0
    ensures CString(bytes) == [] + CString(bytes[i..])
    ensures bytes[i..] == bytes
  {
  }

  // one character of strcmp
  lemma CStringStep(bytes: seq<Byte>, t: seq<Byte>, i: nat)
    requires i <= |t| && i <= |bytes| && bytes[..i] == t[..i]
    requires forall k :: 0 <= k < |t| ==> t[k] != 0
    requires CString(bytes) == bytes[..i] + CString(bytes[i..])
    ensures var c := if i < |bytes| then bytes[i] else 0;
            var x := (t + [0])[i];
            && (x != c ==> CString(bytes) != t)
            && (x == c == 0 ==> CString(bytes) == t)
            && (x == c && c != 0 ==>
                  && i < |t| && i < |bytes| && bytes[..i + 1] == t[..i + 1]
                  && CString(bytes) == bytes[..i + 1] + CString(bytes[i + 1..]))
  {
    CStringUnrolls(bytes, i);
    var head, c := bytes[..i], if i < |bytes| then bytes[i] else 0;
    if c == 0 {
      assert CString(bytes) == head;
      assert i < |t| ==> |CString(bytes)| < |t|;
      assert i == |t| ==> t[..i] == t;
    } else {
      assert CString(bytes)[i] == c;
      if i < |t| && t[i] == c {
        assert bytes[..i + 1] == head + [c] && t[..i + 1] == t[..i] + [c];
      }
    }
  }

  lemma CStringUnrolls(bytes: seq<Byte>, i: nat)
    requires i <= |bytes| && CString(bytes) == bytes[..i] + CString(bytes[i..])
    ensures i == |bytes| || bytes[i] == 0 ==> CString(bytes) == bytes[..i]
    ensures i < |bytes| && bytes[i] != 0 ==>
              CString(bytes) == bytes[..i] + [bytes[i]] + CString(bytes[i + 1..])
  {
    hide CString;
    var tail := bytes[i..];
    CStringHead(tail);
    assert i < |bytes| ==> tail[0] == bytes[i] && tail[1..] == bytes[i + 1..];
    assert bytes[..i] + [] == bytes[..i];
    if i < |bytes| && bytes[i] != 0 {
      assert bytes[..i] + ([bytes[i]] + CString(tail[1..])) == bytes[..i] + [bytes[i]] + CString(tail[1..]);
    }
  }

  lemma CStringHead(bytes: seq<Byte>)
    ensures CString(bytes) == if bytes == [] || bytes[0] == 0 then [] else [bytes[0]] + CString(bytes[1..])
  {
  }

  lemma TermBytes(t: string, term: string)
    requires IsTerm(t) && IsByteString(term)
    ensures forall i :: 0 <= i < |t| ==> ToBytes(t)[i] != 0
    ensures CString(ToBytes(term)) == ToBytes(t) <==> t == BeforeNul(term)
  {
    CStringIs(term);
    BytesRoundTrip(t);
    BytesRoundTrip(BeforeNul(term));
  }

  lemma {:induction false} CStringIs(s: string)
    requires IsByteString(s)
    ensures CString(ToBytes(s)) == ToBytes(BeforeNul(s)) && IsByteString(BeforeNul(s))
  {
    if s != "" {
      CStringIs(s[1..]);
      assert ToBytes(s)[1..] == ToBytes(s[1..]);
      assert s[0] as int != 0 ==> ToBytes([s[0]] + BeforeNul(s[1..])) == [ToBytes(s)[0]] + ToBytes(BeforeNul(s[1..]));
    }
  }

  // a string without NUL is all seen
  lemma {:induction false} TermIsWhole(t: string)
    requires IsTerm(t)
    ensures BeforeNul(t) == t
  {
    if t != "" {
      TermIsWhole(t[1..]);
    }
  }

  lemma BucketsRead(s: Snapshot)
    requires FitsIndex(s)
    ensures DictOffset(s) + 8 <= |Blob(s)| && U64At(Blob(s), DictOffset(s)) == Buckets(s)
  {
    hide Blob, DictOffset, Buckets, BucketOffsets, U64s, U64, U64At, At, FitsIndex, TotalSize, TitleRefsOffset,
         PostingArenaOffset, StringArenaOffset;
    BucketTableStands(s);
    HeaderFits(s);
    TwoParts(U64(Buckets(s)), U64s(BucketOffsets(s, Buckets(s))));
    U64Field(Blob(s), DictOffset(s), BucketTable(s), 0, Buckets(s));
  }

  lemma TwoParts(a: seq<Byte>, b: seq<Byte>)
    ensures At(a + b, 0, a) && At(a + b, |a|, b)
  {
  }

  lemma {:induction false} U64sElement(values: seq<nat>, k: nat)
    requires k < |values|
    ensures At(U64s(values), 8 * k, U64(values[k]))
  {
    hide U64;
    var n := |values| - 1;
    if k < n {
      U64sElement(values[..n], k);
      TwoParts(U64s(values[..n]), U64(values[n]));
      AtPart(U64s(values), 0, U64s(values[..n]), 8 * k, U64(values[k]));
    } else {
      TwoParts(U64s(values[..n]), U64(values[n]));
    }
  }

  lemma BucketReads(s: Snapshot, b: nat)
    requires FitsIndex(s) && b < Buckets(s)
    ensures var at := DictOffset(s) + 8 + 8 * b;
            at + 8 <= |Blob(s)| && U64At(Blob(s), at) == BucketOffset(s, b)
  {
    hide Blob, DictOffset, Buckets, BucketOffset, U64s, U64, U64At, At, FitsIndex, TotalSize, TitleRefsOffset,
         PostingArenaOffset, StringArenaOffset;
    BucketTableStands(s);
    var offsets := BucketOffsets(s, Buckets(s));
    TwoParts(U64(Buckets(s)), U64s(offsets));
    AtPart(Blob(s), DictOffset(s), BucketTable(s), 8, U64s(offsets));
    U64sElement(offsets, b);
    BucketOffsetFits(s, b);
    U64Field(Blob(s), DictOffset(s) + 8, U64s(offsets), 8 * b, offsets[b]);
  }

  lemma {:induction false} ChainsGrow(entries: seq<Entry>, buckets: nat, a: nat, b: nat)
    requires buckets > 0 && a <= b
    ensures ChainsSize(entries, buckets, a) <= ChainsSize(entries, buckets, b)
  {
    hide Chain, ChainSize;
    if a < b {
      ChainsGrow(entries, buckets, a, b - 1);
    }
  }

  lemma BucketOffsetFits(s: Snapshot, b: nat)
    requires FitsIndex(s) && b < Buckets(s)
    ensures IsU64(BucketOffset(s, b))
  {
    hide Chain, ChainsSize, Buckets, ArenaSize, TitleRefs, FitsDocument, FitsEntry, RoundUp, OffsetOf;
    ChainsGrow(s.entries, Buckets(s), b, Buckets(s));
  }

  lemma BucketOffsetIs(s: Snapshot, b: nat)
    ensures BucketOffset(s, b) == 0 <==> Chain(s.entries, Buckets(s), b) == []
    ensures Chain(s.entries, Buckets(s), b) != [] ==> BucketOffset(s, b) == TupleOffset(s, b, 0)
  {
    hide Chain, ChainsSize, Buckets, TitleRefs;
    assert Chain(s.entries, Buckets(s), b)[..0] == [];
  }

  lemma ChainHasEntry(s: Snapshot, h: string -> nat, term: string, b: nat)
    requires HashedBy(s, h) && b == h(term) % Buckets(s)
    ensures HasEntry(s, term) ==>
              exists j :: 0 <= j < |Chain(s.entries, Buckets(s), b)| &&
                          s.entries[Chain(s.entries, Buckets(s), b)[j]].term == term
  {
    hide Chain, Buckets;
    ChainIs(s.entries, Buckets(s), b);
    if HasEntry(s, term) {
      var i := EntryIndex(s, term);
      assert s.entries[i] in s.entries;
      assert i in Chain(s.entries, Buckets(s), b);
    }
  }

  lemma NextTupleOffset(s: Snapshot, b: nat, k: nat)
    requires k < |Chain(s.entries, Buckets(s), b)|
    ensures TupleOffset(s, b, k + 1) ==
            TupleOffset(s, b, k) + TupleSize(s.entries[Chain(s.entries, Buckets(s), b)[k]].term)
  {
    hide Chain, ChainsSize, Buckets, ChainsOffsetIn, TupleSize;
    var chain := Chain(s.entries, Buckets(s), b);
    assert chain[..k + 1][..k] == chain[..k];
  }

  // the bytes of a bucket's chain
  lemma ChainStands(s: Snapshot, b: nat)
    requires b < Buckets(s)
    ensures At(Blob(s), ChainsOffsetIn(s) + ChainsSize(s.entries, Buckets(s), b),
               ChainBytes(s.entries, Chain(s.entries, Buckets(s), b), PostingArenaOffset(s)))
  {
    hide Blob, Chain, ChainsSize, Buckets, ChainsOffsetIn, PostingArenaOffset, ChainBytes, Concat, OffsetOf, At;
    var parts := ChainParts(s.entries, Buckets(s), PostingArenaOffset(s));
    ChainsStand(s);
    AtOffset(parts, b);
    ChainsOffset(s.entries, Buckets(s), PostingArenaOffset(s), b);
    AtPart(Blob(s), ChainsOffsetIn(s), Concat(parts), OffsetOf(parts, b), parts[b]);
  }

  lemma TupleStands(s: Snapshot, b: nat, k: nat)
    requires b < Buckets(s) && k < |Chain(s.entries, Buckets(s), b)|
    ensures var i := Chain(s.entries, Buckets(s), b)[k];
            At(Blob(s), TupleOffset(s, b, k),
               TupleBytes(s.entries[i], PostingOffset(s.entries, PostingArenaOffset(s), i)))
  {
    hide Blob, Chain, ChainsSize, Buckets, ChainsOffsetIn, PostingArenaOffset, TupleBytes, PostingOffset, TuplesSize,
         Concat, OffsetOf, At;
    var chain := Chain(s.entries, Buckets(s), b);
    var parts := ChainTuples(s.entries, chain, PostingArenaOffset(s));
    var at := ChainsOffsetIn(s) + ChainsSize(s.entries, Buckets(s), b);
    ChainStands(s, b);
    AtOffset(parts, k);
    TuplesOffset(s.entries, chain, PostingArenaOffset(s), k);
    TwoParts(Concat(parts), Zeros(8));
    AtPart(Blob(s), at, Concat(parts) + Zeros(8), 0, Concat(parts));
    AtPart(Blob(s), at, Concat(parts), OffsetOf(parts, k), parts[k]);
  }

  lemma TupleHas(e: Entry, postingOffset: nat)
    ensures var r := TupleBytes(e, postingOffset);
            && At(r, 0, U64(TupleSize(e.term))) && At(r, 8, U64(postingOffset)) && At(r, 16, U64(e.hash))
            && At(r, TUPLE_HEADER_SIZE, ToBytes(e.term) + [0])
  {
    hide U64;
    var pad := TupleSize(e.term) - TUPLE_HEADER_SIZE - |e.term|;
    FiveParts(U64(TupleSize(e.term)), U64(postingOffset), U64(e.hash), ToBytes(e.term), Zeros(pad));
    var r := TupleBytes(e, postingOffset);
    assert r == U64(TupleSize(e.term)) + U64(postingOffset) + U64(e.hash) + (ToBytes(e.term) + [0]) + Zeros(pad - 1);
    FiveParts(U64(TupleSize(e.term)), U64(postingOffset), U64(e.hash), ToBytes(e.term) + [0], Zeros(pad - 1));
  }

  lemma TupleReads(s: Snapshot, b: nat, k: nat)
    requires FitsIndex(s) && b < Buckets(s) && k < |Chain(s.entries, Buckets(s), b)|
    ensures var at, i := TupleOffset(s, b, k), Chain(s.entries, Buckets(s), b)[k];
            && at + TUPLE_HEADER_SIZE <= |Blob(s)|
            && U64At(Blob(s), at) == TupleSize(s.entries[i].term) > 0
            && U64At(Blob(s), at + 8) == PostingOffset(s.entries, PostingArenaOffset(s), i)
            && U64At(Blob(s), at + 16) == s.entries[i].hash
            && At(Blob(s), at + TUPLE_HEADER_SIZE, ToBytes(s.entries[i].term) + [0])
  {
    hide Blob, Chain, Buckets, PostingArenaOffset, PostingOffset, TupleOffset, TupleBytes, U64, U64At, At, FitsIndex,
         FitsPosting;
    var at, i := TupleOffset(s, b, k), Chain(s.entries, Buckets(s), b)[k];
    var e, offset := s.entries[i], PostingOffset(s.entries, PostingArenaOffset(s), i);
    var rec := TupleBytes(e, offset);
    TupleStands(s, b, k);
    TupleHas(e, offset);
    EntryFits(s, i);
    PostingOffsetFits(s, i);
    TupleSizeFits(s, b, k);
    U64Field(Blob(s), at, rec, 0, TupleSize(e.term));
    U64Field(Blob(s), at, rec, 8, offset);
    U64Field(Blob(s), at, rec, 16, e.hash);
    AtPart(Blob(s), at, rec, TUPLE_HEADER_SIZE, ToBytes(e.term) + [0]);
  }

  lemma PostingOffsetFits(s: Snapshot, i: nat)
    requires FitsIndex(s) && i < |s.entries|
    ensures IsU64(PostingOffset(s.entries, PostingArenaOffset(s), i))
  {
    hide ChainsSize, Buckets, ArenaSize, TitleRefs, FitsDocument, FitsEntry, RoundUp, PostingBytes, Concat, OffsetOf;
    var parts := PostingParts(s.entries);
    NextPart(parts, i);
    ConcatLength(parts);
  }

  lemma TupleSizeFits(s: Snapshot, b: nat, k: nat)
    requires FitsIndex(s) && b < Buckets(s) && k < |Chain(s.entries, Buckets(s), b)|
    ensures IsU64(TupleSize(s.entries[Chain(s.entries, Buckets(s), b)[k]].term))
  {
    hide Blob, Chain, Buckets, PostingOffset, TupleOffset, ChainsSize, OffsetOf, ArenaSize, TitleRefs,
         FitsDocument, FitsEntry, PostingArenaOffset, StringArenaOffset, TupleSize;
    TupleStands(s, b, k);
    SectionsStand(s);
  }

  lemma SentinelReads(s: Snapshot, b: nat)
    requires b < Buckets(s) && Chain(s.entries, Buckets(s), b) != []
    ensures var at := TupleOffset(s, b, |Chain(s.entries, Buckets(s), b)|);
            at + 8 <= |Blob(s)| && U64At(Blob(s), at) == 0
  {
    hide Blob, Chain, ChainsSize, Buckets, ChainsOffsetIn, PostingArenaOffset, ChainTuples, TuplesSize, Concat,
         OffsetOf, At, U64At;
    var chain := Chain(s.entries, Buckets(s), b);
    var parts := ChainTuples(s.entries, chain, PostingArenaOffset(s));
    var at := ChainsOffsetIn(s) + ChainsSize(s.entries, Buckets(s), b);
    ChainStands(s, b);
    TuplesOffset(s.entries, chain, PostingArenaOffset(s), |chain|);
    ConcatLength(parts);
    TwoParts(Concat(parts), Zeros(8));
    ZeroIsU64();
    assert At(Concat(parts) + Zeros(8), |Concat(parts)|, U64(0));
    U64Field(Blob(s), at, Concat(parts) + Zeros(8), |Concat(parts)|, 0);
  }

  lemma ZeroIsU64()
    ensures U64(0) == Zeros(8)
  {
    ZeroBytes(8);
  }

  lemma {:induction false} ZeroBytes(k: nat)
    ensures LittleEndian(0, k) == Zeros(k)
  {
    if k > 0 {
      ZeroBytes(k - 1);
      assert Zeros(k) == [0] + Zeros(k - 1);
    }
  }
}
