/** Page files: crawled pages serialized one after the other behind a header, read back in
    order or at any offset, with bounds checks against corrupt sizes. */
module PageFiles {
  import opened Bytes
  import opened Wrappers

  const PAGE_MAGIC := 863404304674789781
  const PAGE_HEADER_SIZE := 24
  const MAX_PAGE_FILE_SIZE := 1000000
  const MAX_STRING := 65535

  datatype PageData = PageData(distance: nat, url: string, words: seq<string>, titleWords: seq<string>,
                               anchorText: seq<string>)

  const NO_PAGE := PageData(0, "", [], [], [])

  // ---- the layout

  // strings are cut at the largest 16-bit size
  function Cut(s: string): string { if |s| < MAX_STRING then s else s[..MAX_STRING] }

  function CutAll(v: seq<string>): (r: seq<string>)
    ensures |r| == |v| && forall i :: 0 <= i < |v| ==> r[i] == Cut(v[i])
  {
    seq(|v|, i requires 0 <= i < |v| => Cut(v[i]))
  }

  function StringBytes(s: string): seq<Byte> { U16(|Cut(s)|) + ToBytes(Cut(s)) }

  function StringsBytes(v: seq<string>): seq<Byte> {
    if v == [] then [] else StringBytes(v[0]) + StringsBytes(v[1..])
  }

  function VectorBytes(v: seq<string>): seq<Byte> { U64(|v|) + StringsBytes(v) }

  function PageBytes(p: PageData): seq<Byte> {
    U64(p.distance) +
    (StringBytes(p.url) + (VectorBytes(p.words) + (VectorBytes(p.titleWords) + VectorBytes(p.anchorText))))
  }

  function PagesBytes(pages: seq<PageData>): seq<Byte> {
    if pages == [] then [] else PageBytes(pages[0]) + PagesBytes(pages[1..])
  }

  function HeaderBytes(size: nat, pages: nat): seq<Byte> { U64(PAGE_MAGIC) + U64(size) + U64(pages) }

  function FileBytes(pages: seq<PageData>): seq<Byte> {
    HeaderBytes(|PagesBytes(pages)|, |pages|) + PagesBytes(pages)
  }

  // what reading gives back
  function Stored(p: PageData): PageData {
    PageData(p.distance, Cut(p.url), CutAll(p.words), CutAll(p.titleWords), CutAll(p.anchorText))
  }

  // a string comes back whole up to 65535 bytes, and cut to so many beyond
  predicate IsCutOf(s: string, r: string) { r == if |s| <= 65535 then s else s[..65535] }

  predicate AreCutsOf(v: seq<string>, r: seq<string>) {
    |r| == |v| && forall i :: 0 <= i < |v| ==> IsCutOf(v[i], r[i])
  }

  // a page comes back with its distance, and its strings as they are or cut
  predicate ComesBackAs(p: PageData, r: PageData) {
    && r.distance == p.distance && IsCutOf(p.url, r.url)
    && AreCutsOf(p.words, r.words) && AreCutsOf(p.titleWords, r.titleWords) && AreCutsOf(p.anchorText, r.anchorText)
  }

  predicate AreShort(v: seq<string>) { forall i :: 0 <= i < |v| ==> |v[i]| <= 65535 }

  predicate HasShortStrings(p: PageData) {
    |p.url| <= 65535 && AreShort(p.words) && AreShort(p.titleWords) && AreShort(p.anchorText)
  }

  lemma StoredComesBack(p: PageData)
    ensures ComesBackAs(p, Stored(p))
    ensures HasShortStrings(p) ==> Stored(p) == p
  {
    hide Cut;
    CutIs(p.url);
    AllCut(p.words);
    AllCut(p.titleWords);
    AllCut(p.anchorText);
  }

  lemma StoredParts(p: PageData)
    ensures Stored(p) == PageData(p.distance, Cut(p.url), CutAll(p.words), CutAll(p.titleWords), CutAll(p.anchorText))
  {
  }

  lemma CutIs(s: string)
    ensures IsCutOf(s, Cut(s)) && (|s| <= 65535 ==> Cut(s) == s)
  {
    assert s[..|s|] == s;
  }

  lemma AllCut(v: seq<string>)
    ensures AreCutsOf(v, CutAll(v)) && (AreShort(v) ==> CutAll(v) == v)
  {
    hide Cut, IsCutOf;
    forall i | 0 <= i < |v| ensures IsCutOf(v[i], CutAll(v)[i]) && (|v[i]| <= 65535 ==> CutAll(v)[i] == v[i]) {
      CutIs(v[i]);
    }
  }

  // the layout of a string, byte for byte: its size in two bytes, low byte first, and so many
  // characters
  lemma StringInNumbers(s: string)
    ensures var n := if |s| <= 65535 then |s| else 65535;
            && |StringBytes(s)| == 2 + n
            && StringBytes(s)[0] == n % 256 && StringBytes(s)[1] == n / 256
            && forall k :: 0 <= k < n ==> StringBytes(s)[2 + k] == s[k] as int % 256
  {
    FieldsInNumbers(|Cut(s)|);
  }

  // the layout of a page: the distance, the url, then words, title words and anchor text, each
  // a count and its strings
  lemma PageInNumbers(p: PageData)
    ensures var w := 8 + |StringBytes(p.url)|;
            var t := w + 8 + |StringsBytes(p.words)|;
            var x := t + 8 + |StringsBytes(p.titleWords)|;
            && |PageBytes(p)| == x + 8 + |StringsBytes(p.anchorText)|
            && At(PageBytes(p), 0, U64(p.distance)) && At(PageBytes(p), 8, StringBytes(p.url))
            && At(PageBytes(p), w, U64(|p.words|)) && At(PageBytes(p), w + 8, StringsBytes(p.words))
            && At(PageBytes(p), t, U64(|p.titleWords|)) && At(PageBytes(p), t + 8, StringsBytes(p.titleWords))
            && At(PageBytes(p), x, U64(|p.anchorText|)) && At(PageBytes(p), x + 8, StringsBytes(p.anchorText))
  {
    hide StringBytes, StringsBytes, U64, At;
    var x, t, w, u := VectorBytes(p.anchorText), VectorBytes(p.titleWords), VectorBytes(p.words), StringBytes(p.url);
    var all := PageBytes(p);
    ThenRest([], all, U64(p.distance), u + (w + (t + x)));
    ThenRest(U64(p.distance), all, u, w + (t + x));
    ThenRest(U64(p.distance) + u, all, w, t + x);
    ThenRest(U64(p.distance) + u + w, all, t, x);
    ThenRest(U64(p.distance) + u + w + t, all, x, []);
    VectorParts(p.words);
    VectorParts(p.titleWords);
    VectorParts(p.anchorText);
    AtPart(all, 8 + |u|, w, 0, U64(|p.words|));
    AtPart(all, 8 + |u|, w, 8, StringsBytes(p.words));
    AtPart(all, 8 + |u| + |w|, t, 0, U64(|p.titleWords|));
    AtPart(all, 8 + |u| + |w|, t, 8, StringsBytes(p.titleWords));
    AtPart(all, 8 + |u| + |w| + |t|, x, 0, U64(|p.anchorText|));
    AtPart(all, 8 + |u| + |w| + |t|, x, 8, StringsBytes(p.anchorText));
  }

  lemma ThenRest(before: seq<Byte>, all: seq<Byte>, part: seq<Byte>, rest: seq<Byte>)
    requires all == before + (part + rest)
    ensures At(all, |before|, part) && all == (before + part) + rest
  {
    AtConcat(before, part, rest);
    assert before + part + rest == all;
  }

  lemma VectorParts(v: seq<string>)
    ensures At(VectorBytes(v), 0, U64(|v|)) && At(VectorBytes(v), 8, StringsBytes(v))
    ensures |VectorBytes(v)| == 8 + |StringsBytes(v)|
  {
    hide StringsBytes, U64;
  }

  // the strings of a vector follow one another
  lemma StringsInOrder(v: seq<string>, i: nat)
    requires i < |v|
    ensures At(StringsBytes(v), |StringsBytes(v[..i])|, StringBytes(v[i]))
    ensures StringsBytes(v[..0]) == [] && |StringsBytes(v[..i + 1])| == |StringsBytes(v[..i])| + |StringBytes(v[i])|
  {
    hide StringBytes, StringsBytes;
    OneMoreString(v, i);
    StringsSplit(v, i + 1);
    NoStrings(v);
    AtConcat(StringsBytes(v[..i]), StringBytes(v[i]), StringsBytes(v[i + 1..]));
  }

  // the header of a file: the magic number, the size of the pages, and their count
  lemma FileInNumbers(pages: seq<PageData>)
    ensures At(FileBytes(pages), 0, U64(863404304674789781)) && At(FileBytes(pages), 8, U64(|PagesBytes(pages)|))
    ensures At(FileBytes(pages), 16, U64(|pages|)) && At(FileBytes(pages), 24, PagesBytes(pages))
    ensures |FileBytes(pages)| == 24 + |PagesBytes(pages)|
  {
    hide PagesBytes, U64, At;
    var a, b, c, d := U64(863404304674789781), U64(|PagesBytes(pages)|), U64(|pages|), PagesBytes(pages);
    var all := FileBytes(pages);
    assert all == [] + (a + (b + (c + d)));
    ThenRest([], all, a, b + (c + d));
    assert all == a + (b + (c + d));
    ThenRest(a, all, b, c + d);
    ThenRest(a + b, all, c, d);
    assert all == (a + b + c) + (d + []);
    ThenRest(a + b + c, all, d, []);
  }

  predicate AreByteStrings(v: seq<string>) { forall i :: 0 <= i < |v| ==> IsByteString(v[i]) }

  // what the types of a page's fields allow
  predicate IsPage(p: PageData) {
    && IsU64(p.distance) && IsByteString(p.url)
    && AreByteStrings(p.words) && AreByteStrings(p.titleWords) && AreByteStrings(p.anchorText)
    && IsU64(|p.words|) && IsU64(|p.titleWords|) && IsU64(|p.anchorText|)
  }

  lemma {:induction false} StringsAppend(v: seq<string>, s: string)
    ensures StringsBytes(v + [s]) == StringsBytes(v) + StringBytes(s)
  {
    hide StringBytes;
    if v == [] {
      assert [s][1..] == [];
    } else {
      StringsAppend(v[1..], s);
      assert (v + [s])[1..] == v[1..] + [s];
    }
  }

  lemma {:induction false} PagesAppend(pages: seq<PageData>, p: PageData)
    ensures PagesBytes(pages + [p]) == PagesBytes(pages) + PageBytes(p)
  {
    hide PageBytes;
    if pages == [] {
      assert [p][1..] == [];
    } else {
      PagesAppend(pages[1..], p);
      assert (pages + [p])[1..] == pages[1..] + [p];
    }
  }

  // ---- writing

  // what two writes, one after the other, leave
  lemma TwoWrites(before: seq<Byte>, mid: seq<Byte>, after: seq<Byte>, at: nat, x: seq<Byte>, y: seq<Byte>)
    requires at + |x| + |y| <= |before|
    requires mid == before[..at] + x + before[at + |x|..]
    requires after == mid[..at + |x|] + y + mid[at + |x| + |y|..]
    ensures var n := at + |x| + |y|;
            && |after| == |before| && after[..n] == before[..at] + (x + y) && after[n..] == before[n..]
            && forall k :: 0 <= k < |x + y| ==> after[at + k] == (x + y)[k]
  {
    assert mid[..at + |x|] == before[..at] + x;
    assert mid[at + |x| + |y|..] == before[at + |x| + |y|..];
    assert before[..at] + x + y == before[..at] + (x + y);
  }

  method SerializeString(a: array<Byte>, at: nat, s: string) returns (next: nat)
    requires at + |StringBytes(s)| <= a.Length
    modifies a
    ensures next == at + |StringBytes(s)|
    ensures a[..next] == old(a[..at]) + StringBytes(s) && a[next..] == old(a[next..])
    ensures var n := if |s| <= 65535 then |s| else 65535;
            && next == at + 2 + n && a[at] == n % 256 && a[at + 1] == n / 256
            && forall k :: 0 <= k < n ==> a[at + 2 + k] == s[k] as int % 256
  {
    hide U16, ToBytes;
    StringInNumbers(s);
    var size := if |s| < MAX_STRING then |s| else MAX_STRING;
    ghost var before := a[..];
    assert s[..size] == Cut(s);
    assert StringBytes(s) == U16(size) + ToBytes(s[..size]);
    hide StringBytes, Cut;
    Put(a, at, U16(size));
    ghost var mid := a[..];
    Put(a, at + 2, ToBytes(s[..size]));
    next := at + 2 + size;
    TwoWrites(before, mid, a[..], at, U16(size), ToBytes(s[..size]));
  }

  method SerializeStringVector(a: array<Byte>, at: nat, v: seq<string>) returns (next: nat)
    requires at + |VectorBytes(v)| <= a.Length
    modifies a
    ensures next == at + |VectorBytes(v)|
    ensures a[..next] == old(a[..at]) + VectorBytes(v) && a[next..] == old(a[next..])
  {
    hide StringsBytes, StringBytes;
    Put(a, at, U64(|v|));
    next := at + 8;
    NoStrings(v);
    for i := 0 to |v|
      invariant next == at + 8 + |StringsBytes(v[..i])| <= a.Length
      invariant a[..next] == old(a[..at]) + (U64(|v|) + StringsBytes(v[..i])) && a[next..] == old(a[next..])
    {
      OneMoreString(v, i);
      next := SerializeString(a, next, v[i]);
    }
    assert v[..|v|] == v;
  }

  lemma NoStrings(v: seq<string>)
    ensures StringsBytes(v[..0]) == []
  {
  }

  lemma {:induction false} OneMoreString(v: seq<string>, i: nat)
    requires i < |v|
    ensures StringsBytes(v[..i + 1]) == StringsBytes(v[..i]) + StringBytes(v[i])
    ensures |StringsBytes(v[..i])| + |StringBytes(v[i])| <= |StringsBytes(v)|
  {
    hide StringBytes;
    assert v[..i + 1] == v[..i] + [v[i]];
    StringsAppend(v[..i], v[i]);
    StringsSplit(v, i + 1);
  }

  lemma {:induction false} StringsSplit(v: seq<string>, i: nat)
    requires i <= |v|
    ensures StringsBytes(v) == StringsBytes(v[..i]) + StringsBytes(v[i..])
  {
    hide StringBytes;
    if i > 0 {
      StringsSplit(v[1..], i - 1);
      assert v[1..][..i - 1] == v[..i][1..] && v[1..][i - 1..] == v[i..];
    } else {
      assert v[0..] == v;
    }
  }

  // the bytes set aside for the strings, before any is cut
  function RawSize(v: seq<string>): nat {
    if v == [] then 0 else RawSize(v[..|v| - 1]) + 2 + |v[|v| - 1]|
  }

  lemma {:induction false} RawSizeSuffices(v: seq<string>)
    ensures |StringsBytes(v)| <= RawSize(v)
  {
    if v != [] {
      var n := |v| - 1;
      RawSizeSuffices(v[..n]);
      OneMoreString(v, n);
      assert v[..n + 1] == v;
    }
  }

  method SizeOfStrings(v: seq<string>) returns (size: nat)
    ensures size == RawSize(v)
  {
    size := 0;
    for i := 0 to |v|
      invariant size == RawSize(v[..i])
    {
      assert v[..i + 1][..i] == v[..i];
      size := size + 2 + |v[i]|;
    }
    assert v[..|v|] == v;
  }

  method SerializePage(p: PageData) returns (bytes: seq<Byte>)
    ensures bytes == PageBytes(p)
  {
    hide StringBytes, VectorBytes, U64, RawSize, PageBytes;
    var titleSize := SizeOfStrings(p.titleWords);
    var wordsSize := SizeOfStrings(p.words);
    var anchorSize := SizeOfStrings(p.anchorText);
    var dataSize := 8 + 3 * 8 + 2 + |p.url| + titleSize + wordsSize + anchorSize;
    PageSizeSuffices(p);
    var a := new Byte[dataSize](_ => 0);
    var at := SerializeHead(a, p);
    at := SerializeVectors(a, at, p);
    bytes := a[..at];
    PageIsHeadAndVectors(p);
  }

  function VectorsBytes(p: PageData): seq<Byte> {
    VectorBytes(p.words) + VectorBytes(p.titleWords) + VectorBytes(p.anchorText)
  }

  lemma PageIsHeadAndVectors(p: PageData)
    ensures PageBytes(p) == U64(p.distance) + StringBytes(p.url) + VectorsBytes(p)
  {
    hide StringBytes, VectorBytes, U64;
  }

  method SerializeHead(a: array<Byte>, p: PageData) returns (at: nat)
    requires 8 + |StringBytes(p.url)| <= a.Length
    modifies a
    ensures at == 8 + |StringBytes(p.url)| && a[..at] == U64(p.distance) + StringBytes(p.url)
  {
    hide StringBytes;
    Put(a, 0, U64(p.distance));
    at := SerializeString(a, 8, p.url);
  }

  method SerializeVectors(a: array<Byte>, start: nat, p: PageData) returns (at: nat)
    requires start + |VectorsBytes(p)| <= a.Length
    modifies a
    ensures at == start + |VectorsBytes(p)| && a[..at] == old(a[..start]) + VectorsBytes(p)
  {
    hide VectorBytes;
    at := SerializeStringVector(a, start, p.words);
    ghost var done := old(a[..start]) + VectorBytes(p.words);
    at := SerializeStringVector(a, at, p.titleWords);
    assert a[..at] == done + VectorBytes(p.titleWords);
    at := SerializeStringVector(a, at, p.anchorText);
    assert a[..at] == done + VectorBytes(p.titleWords) + VectorBytes(p.anchorText);
  }

  lemma PageSizeSuffices(p: PageData)
    ensures |U64(p.distance)| == 8 && |StringBytes(p.url)| <= 2 + |p.url|
    ensures |VectorsBytes(p)| <= 24 + RawSize(p.words) + RawSize(p.titleWords) + RawSize(p.anchorText)
  {
    RawSizeSuffices(p.words);
    RawSizeSuffices(p.titleWords);
    RawSizeSuffices(p.anchorText);
  }

  // the pages of one rank that are not on disk yet
  class PageFile {
    var numWritten: nat
    var sizeBytes: nat
    var numPages: nat
    var entries: seq<seq<Byte>>
    ghost var pages: seq<PageData>

    ghost predicate Valid()
      reads this
    {
      && |entries| == numPages == |pages|
      && sizeBytes == |PagesBytes(pages)|
      && forall i :: 0 <= i < |pages| ==> entries[i] == PageBytes(pages[i])
    }

    constructor ()
      ensures Valid() && pages == [] && numWritten == 0
    {
      numWritten, sizeBytes, numPages, entries, pages := 0, 0, 0, [], [];
    }

    method WritePage(p: PageData) returns (code: int)
      requires Valid()
      modifies this
      ensures Valid() && pages == old(pages) + [p] && numWritten == old(numWritten)
      ensures code == if |PagesBytes(pages)| > MAX_PAGE_FILE_SIZE then 1 else 0
    {
      hide PageBytes, PagesBytes;
      var bytes := SerializePage(p);
      PagesAppend(pages, p);
      numPages := numPages + 1;
      sizeBytes := sizeBytes + |bytes|;
      entries := entries + [bytes];
      pages := pages + [p];
      return if sizeBytes > MAX_PAGE_FILE_SIZE then 1 else 0;
    }

    // `canOpen` and `writes` stand for the disk: whether the file can be created, and how many
    // writes to it succeed
    method WritePageFile(canOpen: bool, writes: nat) returns (code: int, file: Option<seq<Byte>>)
      requires Valid()
      modifies this
      ensures Valid()
      ensures code == 1 <==> old(sizeBytes) <= MAX_PAGE_FILE_SIZE
      ensures code == 0 <==> old(sizeBytes) > MAX_PAGE_FILE_SIZE && canOpen && writes > |old(pages)|
      ensures code == 0 ==> pages == [] && file == Some(FileBytes(old(pages)))
      ensures code != 0 ==> pages == old(pages) && (file.Some? ==> file.value <= FileBytes(pages))
      ensures numWritten == old(numWritten) + if code == 1 then 0 else 1
    {
      hide PageBytes, PagesBytes, HeaderBytes;
      if sizeBytes <= MAX_PAGE_FILE_SIZE {
        return 1, None;
      }
      numWritten := numWritten + 1;
      if !canOpen {
        return -1, None;
      }
      if writes == 0 {
        return -1, Some([]);
      }
      var header := HeaderBytes(sizeBytes, numPages);
      var written := header;
      NoPages(pages);
      for i := 0 to |entries|
        invariant i < writes && written == header + PagesBytes(pages[..i])
        modifies {}
      {
        OneMorePage(pages, i);
        if i + 1 >= writes {
          PagesArePrefix(header, pages, i);
          return -1, Some(written);
        }
        written := written + entries[i];
      }
      assert pages[..|pages|] == pages;
      numPages, sizeBytes, entries, pages := 0, 0, [], [];
      return 0, Some(written);
    }
  }

  lemma NoPages(pages: seq<PageData>)
    ensures PagesBytes(pages[..0]) == [] && |PagesBytes([])| == 0
  {
  }

  lemma OneMorePage(pages: seq<PageData>, i: nat)
    requires i < |pages|
    ensures PagesBytes(pages[..i + 1]) == PagesBytes(pages[..i]) + PageBytes(pages[i])
  {
    assert pages[..i + 1] == pages[..i] + [pages[i]];
    PagesAppend(pages[..i], pages[i]);
  }

  lemma {:induction false} PagesSplit(pages: seq<PageData>, i: nat)
    requires i <= |pages|
    ensures PagesBytes(pages) == PagesBytes(pages[..i]) + PagesBytes(pages[i..])
  {
    hide PageBytes;
    if i > 0 {
      PagesSplit(pages[1..], i - 1);
      assert pages[1..][..i - 1] == pages[..i][1..] && pages[1..][i - 1..] == pages[i..];
    } else {
      assert pages[0..] == pages;
    }
  }

  lemma PagesArePrefix(header: seq<Byte>, pages: seq<PageData>, i: nat)
    requires i <= |pages|
    ensures header + PagesBytes(pages[..i]) <= header + PagesBytes(pages)
  {
    PagesSplit(pages, i);
  }

  // ---- reading

  class PageFileReader {
    var mapped: seq<Byte>
    var location: nat
    var valid: bool
    var corrupt: bool
    var entriesLeft: nat

    constructor ()
      ensures !valid && mapped == []
    {
      mapped, location, valid, corrupt, entriesLeft := [], 0, false, false, 0;
    }

    // None stands for a file that cannot be opened
    method LoadPageFile(file: Option<seq<Byte>>, canMap: bool) returns (code: int)
      modifies this
      ensures code == 0 <==>
                file.Some? && |file.value| >= PAGE_HEADER_SIZE && U64At(file.value, 0) == PAGE_MAGIC && canMap
      ensures code == 0 ==>
                && valid && !corrupt && mapped == file.value && location == PAGE_HEADER_SIZE
                && entriesLeft == U64At(file.value, 16)
      ensures code != 0 ==> code == -1 && !valid
    {
      hide FromLittleEndian;
      valid := false;
      if file.None? || |file.value| < PAGE_HEADER_SIZE {
        return -1;
      }
      if U64At(file.value, 0) != PAGE_MAGIC {
        return -1;
      }
      entriesLeft := U64At(file.value, 16);
      if !canMap {
        return -1;
      }
      mapped, location := file.value, PAGE_HEADER_SIZE;
      valid, corrupt := true, false;
      return 0;
    }

    method ClosePageFile()
      modifies this`valid
      ensures !valid
    {
      valid := false;
    }

    predicate InBounds(at: nat, n: nat)
      reads this
    {
      mapped != [] && at <= |mapped| && n <= |mapped| - at
    }

    // `s` is what the caller hopes to find
    method DeserializeString(ghost s: string) returns (r: string)
      modifies this`location, this`corrupt
      ensures old(location) <= location
      ensures old(location) <= |mapped| ==> location <= |mapped|
      ensures old(corrupt) ==> corrupt
      ensures !corrupt ==> old(location) + 2 + |r| == location <= |mapped|
      ensures At(mapped, old(location), StringBytes(s)) && IsByteString(s) ==>
                r == Cut(s) && location == old(location) + |StringBytes(s)| && corrupt == old(corrupt)
    {
      hide FromLittleEndian, U16, FromBytes, ToBytes, StringBytes;
      if At(mapped, location, StringBytes(s)) && IsByteString(s) {
        StringReads(mapped, location, s);
      }
      if !InBounds(location, 2) {
        corrupt := true;
        return "";
      }
      var size := U16At(mapped, location);
      location := location + 2;
      if !InBounds(location, size) {
        corrupt := true;
        return "";
      }
      r := FromBytes(mapped[location..location + size]);
      location := location + size;
    }

    // `v` is what the caller hopes to find
    method DeserializeStringVector(ghost v: seq<string>) returns (r: seq<string>)
      modifies this`location, this`corrupt
      ensures old(location) <= location
      ensures old(location) <= |mapped| ==> location <= |mapped|
      ensures old(corrupt) ==> corrupt
      ensures !old(corrupt) && At(mapped, old(location), VectorBytes(v)) && AreByteStrings(v) && IsU64(|v|) ==>
                r == CutAll(v) && location == old(location) + |VectorBytes(v)| && !corrupt
    {
      hide FromLittleEndian, U64, VectorBytes, StringsBytes, StringBytes, Cut;
      ghost var hoped := !corrupt && At(mapped, location, VectorBytes(v)) && AreByteStrings(v) && IsU64(|v|);
      if hoped {
        VectorReads(mapped, location, v);
      }
      if !InBounds(location, 8) {
        corrupt := true;
        return [];
      }
      var size := U64At(mapped, location);
      location := location + 8;
      var remaining := |mapped| - location;
      if size > remaining / 2 {
        corrupt := true;
        return [];
      }
      r := [];
      ghost var start := location;
      for i := 0 to size
        invariant |r| == i && start <= location <= |mapped|
        invariant old(corrupt) ==> corrupt
        invariant hoped ==>
                    && i <= |v| == size && r == CutAll(v[..i]) && !corrupt
                    && At(mapped, location, StringsBytes(v[i..])) && location == start + |StringsBytes(v[..i])|
      {
        if hoped {
          NextStringReads(mapped, location, v, i);
        }
        var s := DeserializeString(if hoped then v[i] else "");
        if corrupt {
          return;
        }
        r := r + [s];
      }
      assert v[..|v|] == v;
    }

    // `p` is the page the caller hopes to find. The cursor stays inside the mapping exactly
    // when the eight bytes before the url do: they are the only ones read unchecked
    method GetNextPage(ghost p: PageData) returns (code: int, pd: PageData)
      modifies this`location, this`valid, this`corrupt, this`entriesLeft
      ensures old(location) <= location
      ensures old(valid && entriesLeft > 0) ==> (location <= |mapped| <==> old(location) + 8 <= |mapped|)
      ensures !old(valid) || old(entriesLeft) == 0 ==> code == -1 && location == old(location) && !valid
      ensures corrupt && old(valid) ==> code == -1 && !valid
      ensures old(valid && entriesLeft > 0) && |mapped| < location ==> code == -1 && corrupt
      ensures old(valid && !corrupt && entriesLeft > 0) && At(mapped, old(location), PageBytes(p)) && IsPage(p) ==>
                && code == ToI32(old(location) % 0x1_0000_0000) && pd == Stored(p)
                && ComesBackAs(p, pd) && (HasShortStrings(p) ==> pd == p)
                && location == old(location) + |PageBytes(p)|
                && valid && !corrupt && entriesLeft == old(entriesLeft) - 1
    {
      hide FromLittleEndian, U64, VectorBytes, StringBytes, PageBytes, CutAll, Cut, At, IsPage, AreByteStrings,
           Stored, ComesBackAs, HasShortStrings;
      var index := ToI32(location % 0x1_0000_0000);
      pd := NO_PAGE;
      if !valid {
        return -1, pd;
      }
      if entriesLeft == 0 {
        valid := false;
        return -1, pd;
      }
      ghost var hoped := !corrupt && At(mapped, location, PageBytes(p)) && IsPage(p);
      StoredComesBack(p);
      if hoped {
        PageReads(mapped, location, p);
      }
      // the read of the page's header is not checked against the mapping
      var distance := *;
      if location + 8 <= |mapped| {
        distance := U64At(mapped, location);
      }
      location := location + 8;
      var url := DeserializeString(p.url);
      var words := DeserializeStringVector(p.words);
      var titleWords := DeserializeStringVector(p.titleWords);
      var anchorText := DeserializeStringVector(p.anchorText);
      pd := PageData(distance, url, words, titleWords, anchorText);
      assert hoped ==> pd == Stored(p) by { StoredParts(p); }
      if corrupt {
        valid := false;
        return -1, pd;
      }
      entriesLeft := entriesLeft - 1;
      return index, pd;
    }

    // read at an offset of the file
    method GetPageDataFromIndex(file: Option<seq<Byte>>, canMap: bool, index: nat,
                                ghost pages: seq<PageData>, ghost i: nat)
      returns (code: int, pd: PageData)
      modifies this
      ensures code == 0 || code == -1
      ensures file == Some(FileBytes(pages)) && canMap && i < |pages| && index == PageOffset(pages, i)
              && IsU64(|pages|) && IsPage(pages[i]) && |FileBytes(pages)| < 0x8000_0000 ==>
                && code == 0 && pd == Stored(pages[i])
                && ComesBackAs(pages[i], pd) && (HasShortStrings(pages[i]) ==> pd == pages[i])
    {
      hide FromLittleEndian, FileBytes, PageBytes, PageOffset, Stored, IsPage, ComesBackAs, HasShortStrings;
      pd := NO_PAGE;
      ghost var hoped := && file == Some(FileBytes(pages)) && canMap && i < |pages| && index == PageOffset(pages, i)
                         && IsU64(|pages|) && IsPage(pages[i]) && |FileBytes(pages)| < 0x8000_0000;
      if hoped {
        HeaderReads(pages);
        PageIsAt(pages, i);
      }
      var loaded := LoadPageFile(file, canMap);
      if loaded == -1 {
        return -1, pd;
      }
      if index >= |mapped| {
        ClosePageFile();
        return -1, pd;
      }
      location := index;
      code, pd := GetNextPage(if i < |pages| then pages[i] else NO_PAGE);
      if code == -1 {
        return -1, pd;
      }
      ClosePageFile();
      return 0, pd;
    }
  }

  lemma StringReads(base: seq<Byte>, at: nat, s: string)
    requires At(base, at, StringBytes(s)) && IsByteString(s)
    ensures at + 2 <= |base| && U16At(base, at) == |Cut(s)| && |StringBytes(s)| == 2 + |Cut(s)|
    ensures at + 2 + |Cut(s)| <= |base| && FromBytes(base[at + 2..at + 2 + |Cut(s)|]) == Cut(s)
  {
    hide FromLittleEndian;
    var size, text := U16(|Cut(s)|), ToBytes(Cut(s));
    assert At(StringBytes(s), 0, size) && At(StringBytes(s), 2, text);
    AtPart(base, at, StringBytes(s), 0, size);
    AtPart(base, at, StringBytes(s), 2, text);
    ReadU16(base, at, |Cut(s)|);
    BytesRoundTrip(Cut(s));
  }

  lemma VectorReads(base: seq<Byte>, at: nat, v: seq<string>)
    requires At(base, at, VectorBytes(v)) && IsU64(|v|)
    ensures at + 8 <= |base| && U64At(base, at) == |v| && |VectorBytes(v)| == 8 + |StringsBytes(v)|
    ensures At(base, at + 8, StringsBytes(v)) && |v| <= (|base| - (at + 8)) / 2
    ensures v[0..] == v && StringsBytes(v[..0]) == [] && CutAll(v[..0]) == []
  {
    hide FromLittleEndian, StringBytes;
    var size, strings := U64(|v|), StringsBytes(v);
    assert At(VectorBytes(v), 0, size) && At(VectorBytes(v), 8, strings);
    AtPart(base, at, VectorBytes(v), 0, size);
    AtPart(base, at, VectorBytes(v), 8, strings);
    ReadU64(base, at, |v|);
    StringsTakeRoom(v);
  }

  lemma {:induction false} StringsTakeRoom(v: seq<string>)
    ensures 2 * |v| <= |StringsBytes(v)|
  {
    if v != [] {
      StringsTakeRoom(v[1..]);
    }
  }

  lemma NextStringReads(base: seq<Byte>, at: nat, v: seq<string>, i: nat)
    requires i < |v| && At(base, at, StringsBytes(v[i..])) && AreByteStrings(v)
    ensures At(base, at, StringBytes(v[i])) && IsByteString(v[i])
    ensures At(base, at + |StringBytes(v[i])|, StringsBytes(v[i + 1..]))
    ensures StringsBytes(v[..i + 1]) == StringsBytes(v[..i]) + StringBytes(v[i])
    ensures CutAll(v[..i + 1]) == CutAll(v[..i]) + [Cut(v[i])]
  {
    hide StringBytes;
    OneMoreString(v, i);
    assert v[i..][1..] == v[i + 1..];
    HeadAndTailAt(base, at, StringBytes(v[i]), StringsBytes(v[i + 1..]));
  }

  lemma HeadAndTailAt(base: seq<Byte>, at: nat, head: seq<Byte>, tail: seq<Byte>)
    requires At(base, at, head + tail)
    ensures At(base, at, head) && At(base, at + |head|, tail)
  {
    assert At(head + tail, 0, head) && At(head + tail, |head|, tail);
    AtPart(base, at, head + tail, 0, head);
    AtPart(base, at, head + tail, |head|, tail);
  }

  // where page i begins in the file
  function PageOffset(pages: seq<PageData>, i: nat): nat
    requires i <= |pages|
  {
    PAGE_HEADER_SIZE + |PagesBytes(pages[..i])|
  }

  lemma PageReads(base: seq<Byte>, at: nat, p: PageData)
    requires At(base, at, PageBytes(p)) && IsPage(p)
    ensures IsByteString(p.url)
    ensures AreByteStrings(p.words) && AreByteStrings(p.titleWords) && AreByteStrings(p.anchorText)
    ensures IsU64(|p.words|) && IsU64(|p.titleWords|) && IsU64(|p.anchorText|)
    ensures at + 8 <= |base| && U64At(base, at) == p.distance
    ensures var a := at + 8; var b := a + |StringBytes(p.url)|;
            var c := b + |VectorBytes(p.words)|; var d := c + |VectorBytes(p.titleWords)|;
            && At(base, a, StringBytes(p.url)) && At(base, b, VectorBytes(p.words))
            && At(base, c, VectorBytes(p.titleWords)) && At(base, d, VectorBytes(p.anchorText))
            && at + |PageBytes(p)| == d + |VectorBytes(p.anchorText)|
  {
    hide FromLittleEndian, U64, VectorBytes, StringBytes, At, AreByteStrings, IsByteString;
    var v3 := VectorBytes(p.anchorText);
    var v2 := VectorBytes(p.titleWords) + v3;
    var v1 := VectorBytes(p.words) + v2;
    var v0 := StringBytes(p.url) + v1;
    HeadAndTailAt(base, at, U64(p.distance), v0);
    HeadAndTailAt(base, at + 8, StringBytes(p.url), v1);
    HeadAndTailAt(base, at + 8 + |StringBytes(p.url)|, VectorBytes(p.words), v2);
    HeadAndTailAt(base, at + 8 + |StringBytes(p.url)| + |VectorBytes(p.words)|, VectorBytes(p.titleWords), v3);
    ReadU64(base, at, p.distance);
  }

  // every page of a file stands at its offset, and they follow one another
  lemma PageIsAt(pages: seq<PageData>, i: nat)
    requires i < |pages|
    ensures At(FileBytes(pages), PageOffset(pages, i), PageBytes(pages[i]))
    ensures PageOffset(pages, i + 1) == PageOffset(pages, i) + |PageBytes(pages[i])| <= |FileBytes(pages)|
    ensures PAGE_HEADER_SIZE <= PageOffset(pages, i) < |FileBytes(pages)|
  {
    hide PageBytes, HeaderBytes;
    PagesSplit(pages, i);
    OneMorePage(pages, i);
    PageTakesRoom(pages[i]);
    HeaderSize(|PagesBytes(pages)|, |pages|);
    var header := HeaderBytes(|PagesBytes(pages)|, |pages|);
    var before, here, after := PagesBytes(pages[..i]), PageBytes(pages[i]), PagesBytes(pages[i..][1..]);
    assert FileBytes(pages) == (header + before) + here + after;
    AtConcat(header + before, here, after);
  }

  lemma HeaderSize(size: nat, pages: nat)
    ensures |HeaderBytes(size, pages)| == PAGE_HEADER_SIZE
  {
  }

  lemma PageTakesRoom(p: PageData)
    ensures |PageBytes(p)| >= 8
  {
    hide StringBytes, VectorBytes;
  }

  lemma HeaderReads(pages: seq<PageData>)
    requires IsU64(|pages|)
    ensures |FileBytes(pages)| >= PAGE_HEADER_SIZE
    ensures U64At(FileBytes(pages), 0) == PAGE_MAGIC && U64At(FileBytes(pages), 16) == |pages|
  {
    hide FromLittleEndian, U64, PagesBytes;
    var size, rest := |PagesBytes(pages)|, PagesBytes(pages);
    var file := FileBytes(pages);
    AtConcat([], U64(PAGE_MAGIC), U64(size) + U64(|pages|) + rest);
    AtConcat(U64(PAGE_MAGIC) + U64(size), U64(|pages|), rest);
    assert file == [] + U64(PAGE_MAGIC) + (U64(size) + U64(|pages|) + rest);
    assert file == (U64(PAGE_MAGIC) + U64(size)) + U64(|pages|) + rest;
    ReadU64(file, 0, PAGE_MAGIC);
    ReadU64(file, 16, |pages|);
  }

  // the indexer's loop: every page of a written file, in order, each with an offset that
  // leads back to it
  method ReadPages(reader: PageFileReader, file: Option<seq<Byte>>, ghost pages: seq<PageData>)
    returns (indexes: seq<int>, read: seq<PageData>)
    requires file == Some(FileBytes(pages)) && IsU64(|pages|) && |FileBytes(pages)| < 0x8000_0000
    requires forall i :: 0 <= i < |pages| ==> IsPage(pages[i])
    modifies reader
    ensures |read| == |indexes| == |pages|
    ensures forall i :: 0 <= i < |pages| ==> read[i] == Stored(pages[i]) && indexes[i] == PageOffset(pages, i)
    ensures forall i :: 0 <= i < |pages| ==>
              ComesBackAs(pages[i], read[i]) && (HasShortStrings(pages[i]) ==> read[i] == pages[i])
    ensures (forall i :: 0 <= i < |pages| ==> HasShortStrings(pages[i])) ==> read == pages
  {
    hide FromLittleEndian, FileBytes, PageBytes, PageOffset, Stored, IsPage, ComesBackAs, HasShortStrings;
    HeaderReads(pages);
    indexes, read := [], [];
    var code := reader.LoadPageFile(file, true);
    FirstOffset(pages);
    ghost var i := 0;
    while true
      invariant i == |read| == |indexes| <= |pages| && reader.entriesLeft == |pages| - i
      invariant reader.valid && !reader.corrupt && reader.mapped == FileBytes(pages)
      invariant reader.location == PageOffset(pages, i)
      invariant forall k :: 0 <= k < i ==> read[k] == Stored(pages[k]) && indexes[k] == PageOffset(pages, k)
      decreases |pages| - i
    {
      if i < |pages| {
        PageIsAt(pages, i);
      }
      var index, page := reader.GetNextPage(if i < |pages| then pages[i] else NO_PAGE);
      if index == -1 {
        break;
      }
      indexes := indexes + [index];
      read := read + [page];
      i := i + 1;
    }
    forall k | 0 <= k < |pages|
      ensures ComesBackAs(pages[k], read[k]) && (HasShortStrings(pages[k]) ==> read[k] == pages[k])
    {
      StoredComesBack(pages[k]);
    }
  }

  // a file that holds no more than its header, which counts one page: it loads, and asking
  // for the page moves the cursor past the mapping
  method ReadPastHeader(reader: PageFileReader) returns (loaded: int, code: int)
    modifies reader
    ensures loaded == 0 && code == -1 && |reader.mapped| == PAGE_HEADER_SIZE < reader.location
  {
    hide FromLittleEndian, U64;
    var file := U64(PAGE_MAGIC) + U64(0) + U64(1);
    AtConcat([], U64(PAGE_MAGIC), U64(0) + U64(1));
    AtConcat(U64(PAGE_MAGIC) + U64(0), U64(1), []);
    assert file == [] + U64(PAGE_MAGIC) + (U64(0) + U64(1));
    assert file == (U64(PAGE_MAGIC) + U64(0)) + U64(1) + [];
    ReadU64(file, 0, PAGE_MAGIC);
    ReadU64(file, 16, 1);
    loaded := reader.LoadPageFile(Some(file), true);
    var index, _ := reader.GetNextPage(NO_PAGE);
    code := index;
  }

  lemma FirstOffset(pages: seq<PageData>)
    ensures PageOffset(pages, 0) == PAGE_HEADER_SIZE
  {
  }
}
