/** From page files to an index: the loop that reads the pages of a file and adds those that are
    worth it, with the offset that leads from a document back to its page. */
module PageIndexing {
  import opened Wrappers
  import opened Bytes
  import opened Pages
  import opened IndexBuilding
  import opened PageFiles

  // a page as it is indexed: its cleaned fields, and where it is stored
  function PageOf(p: PageData, rank: nat, fileNum: nat, offset: nat): Page {
    Page(p.distance, p.url, p.words, p.titleWords, p.anchorText, rank, fileNum, offset)
  }

  // field by field
  predicate IsPageOf(page: Page, p: PageData, rank: nat, fileNum: nat, offset: nat) {
    && page.distanceFromSeedlist == p.distance && page.url == p.url && page.words == p.words
    && page.titleWords == p.titleWords && page.anchorText == p.anchorText
    && page.pageFileRank == rank && page.pageFileNum == fileNum && page.pageFileIndex == offset
  }

  lemma FieldsOfPage(p: PageData, rank: nat, fileNum: nat, offset: nat)
    ensures IsPageOf(PageOf(p, rank, fileNum, offset), p, rank, fileNum, offset)
  {
  }

  // the first n pages of a file that are kept, cleaned; `clean` gives nothing for a page to skip
  function Kept(pages: seq<PageData>, n: nat, rank: nat, fileNum: nat, clean: PageData -> Option<PageData>): seq<Page>
    requires n <= |pages|
  {
    if n == 0 then []
    else
      Kept(pages, n - 1, rank, fileNum, clean) +
      match clean(Stored(pages[n - 1]))
      case None => []
      case Some(p) => [PageOf(p, rank, fileNum, PageOffset(pages, n - 1))]
  }

  // the page of a file that a kept page comes from
  lemma {:induction false} KeptFrom(pages: seq<PageData>, n: nat, rank: nat, fileNum: nat,
                                    clean: PageData -> Option<PageData>, k: nat) returns (i: nat)
    requires n <= |pages| && k < |Kept(pages, n, rank, fileNum, clean)|
    ensures i < n && clean(Stored(pages[i])).Some?
    ensures Kept(pages, n, rank, fileNum, clean)[k] ==
            PageOf(clean(Stored(pages[i])).value, rank, fileNum, PageOffset(pages, i))
    ensures IsPageOf(Kept(pages, n, rank, fileNum, clean)[k], clean(Stored(pages[i])).value, rank, fileNum,
                     PageOffset(pages, i))
  {
    hide PageOffset, Stored;
    var before := Kept(pages, n - 1, rank, fileNum, clean);
    if k < |before| {
      i := KeptFrom(pages, n - 1, rank, fileNum, clean, k);
    } else {
      i := n - 1;
    }
  }

  ghost predicate IsAmong(kept: seq<Page>, p: PageData, rank: nat, fileNum: nat, offset: nat) {
    exists k :: 0 <= k < |kept| && IsPageOf(kept[k], p, rank, fileNum, offset)
  }

  lemma AmongMore(kept: seq<Page>, more: seq<Page>, p: PageData, rank: nat, fileNum: nat, offset: nat)
    ensures IsAmong(kept, p, rank, fileNum, offset) ==> IsAmong(kept + more, p, rank, fileNum, offset)
    ensures IsAmong(kept + [PageOf(p, rank, fileNum, offset)], p, rank, fileNum, offset)
  {
    FieldsOfPage(p, rank, fileNum, offset);
    hide PageOf, IsPageOf;
    assert (kept + [PageOf(p, rank, fileNum, offset)])[|kept|] == PageOf(p, rank, fileNum, offset);
    if k :| 0 <= k < |kept| && IsPageOf(kept[k], p, rank, fileNum, offset) {
      assert (kept + more)[k] == kept[k];
    }
  }

  // every page that is not skipped is kept, ...
  lemma {:induction false} KeptIsAll(pages: seq<PageData>, n: nat, rank: nat, fileNum: nat,
                                     clean: PageData -> Option<PageData>, i: nat)
    requires i < n <= |pages| && clean(Stored(pages[i])).Some?
    ensures IsAmong(Kept(pages, n, rank, fileNum, clean), clean(Stored(pages[i])).value, rank, fileNum,
                    PageOffset(pages, i))
  {
    hide PageOffset, Stored, IsAmong, PageOf;
    var before, kept := Kept(pages, n - 1, rank, fileNum, clean), Kept(pages, n, rank, fileNum, clean);
    var p := clean(Stored(pages[i])).value;
    if i == n - 1 {
      AmongMore(before, [], p, rank, fileNum, PageOffset(pages, i));
    } else {
      KeptIsAll(pages, n - 1, rank, fileNum, clean, i);
      AmongMore(before, kept[|before|..], p, rank, fileNum, PageOffset(pages, i));
      assert kept == before + kept[|before|..];
    }
  }

  // ... once, in the order of the file
  lemma {:induction false} KeptInOrder(pages: seq<PageData>, n: nat, rank: nat, fileNum: nat,
                                       clean: PageData -> Option<PageData>)
    requires n <= |pages|
    ensures var kept := Kept(pages, n, rank, fileNum, clean);
            && (forall j, k :: 0 <= j < k < |kept| ==> kept[j].pageFileIndex < kept[k].pageFileIndex)
            && (forall k :: 0 <= k < |kept| ==> kept[k].pageFileIndex < PageOffset(pages, n))
  {
    hide PageOffset, Stored;
    if n > 0 {
      KeptInOrder(pages, n - 1, rank, fileNum, clean);
      OffsetsGrow(pages, n - 1);
      KeptStep(pages, n - 1, rank, fileNum, clean);
      hide Kept;
    }
  }

  lemma KeptStep(pages: seq<PageData>, i: nat, rank: nat, fileNum: nat, clean: PageData -> Option<PageData>)
    requires i < |pages|
    ensures Kept(pages, i + 1, rank, fileNum, clean) ==
            Kept(pages, i, rank, fileNum, clean) +
            if clean(Stored(pages[i])).Some?
            then [PageOf(clean(Stored(pages[i])).value, rank, fileNum, PageOffset(pages, i))] else []
  {
    hide PageOffset, Stored, PageOf;
  }

  lemma OffsetsGrow(pages: seq<PageData>, i: nat)
    requires i < |pages|
    ensures PageOffset(pages, i) < PageOffset(pages, i + 1)
  {
    hide PagesBytes, VectorBytes, StringBytes;
    assert pages[..i + 1] == pages[..i] + [pages[i]];
    PagesAppend(pages[..i], pages[i]);
  }

  // the pages of one file, read in order, cleaned, and added; a file that cannot be mapped adds
  // none
  method IndexPageFile(builder: IndexBuilder, reader: PageFileReader, file: Option<seq<Byte>>, canMap: bool,
                       rank: nat, fileNum: nat, clean: PageData -> Option<PageData>, ghost pages: seq<PageData>)
    requires builder.Valid()
    requires file == Some(FileBytes(pages)) && IsU64(|pages|) && |FileBytes(pages)| < 0x8000_0000
    requires forall i :: 0 <= i < |pages| ==> IsPage(pages[i])
    modifies reader, builder
    ensures builder.Valid()
    ensures builder.pages ==
            old(builder.pages) + if canMap then Kept(pages, |pages|, rank, fileNum, clean) else []
  {
    hide FromLittleEndian, FileBytes, PageBytes, PageOffset, Stored, IsPage, ComesBackAs, HasShortStrings, Kept,
         PageOf, IndexBuilder.Valid;
    HeaderReads(pages);
    var code := reader.LoadPageFile(file, canMap);
    if code != 0 {
      return;
    }
    FirstOffset(pages);
    ghost var i := 0;
    NoneKept(pages, rank, fileNum, clean);
    while true
      invariant builder.Valid() && i <= |pages| && reader.entriesLeft == |pages| - i
      invariant reader.valid && !reader.corrupt && reader.mapped == FileBytes(pages)
      invariant reader.location == PageOffset(pages, i)
      invariant builder.pages == old(builder.pages) + Kept(pages, i, rank, fileNum, clean)
      decreases |pages| - i
    {
      if i < |pages| {
        PageIsAt(pages, i);
      }
      var index, page := reader.GetNextPage(if i < |pages| then pages[i] else NO_PAGE);
      if index == -1 {
        break;
      }
      KeptStep(pages, i, rank, fileNum, clean);
      var cleaned := clean(page);
      if cleaned.Some? {
        builder.AddDocument(PageOf(cleaned.value, rank, fileNum, index));
      }
      i := i + 1;
    }
  }

  lemma NoneKept(pages: seq<PageData>, rank: nat, fileNum: nat, clean: PageData -> Option<PageData>)
    ensures Kept(pages, 0, rank, fileNum, clean) == []
  {
  }

  // from a document back to its page: the metadata of a document of the file holds the offset at
  // which the page it was made from reads back
  method PageOfDocument(builder: IndexBuilder, reader: PageFileReader, file: Option<seq<Byte>>, d: nat,
                        rank: nat, fileNum: nat, clean: PageData -> Option<PageData>, ghost pages: seq<PageData>)
    returns (code: int, page: PageData)
    requires builder.Valid() && builder.pages == Kept(pages, |pages|, rank, fileNum, clean) && d < |builder.pages|
    requires file == Some(FileBytes(pages)) && IsU64(|pages|) && |FileBytes(pages)| < 0x8000_0000
    requires forall i :: 0 <= i < |pages| ==> IsPage(pages[i])
    modifies reader
    ensures d < |builder.documents|
    ensures code == 0 && clean(page).Some?
    ensures IsPageOf(builder.pages[d], clean(page).value, rank, fileNum, builder.documents[d].pageFileIndex)
    ensures exists i :: 0 <= i < |pages| && ComesBackAs(pages[i], page) &&
                        (HasShortStrings(pages[i]) ==> page == pages[i])
  {
    hide FileBytes, PageOffset, Stored, IsPage, IsDictionaryOf, Corpus, ComesBackAs, HasShortStrings;
    ghost var i := KeptFrom(pages, |pages|, rank, fileNum, clean, d);
    assert builder.documents[d] == MetadataOf(builder.pages, d);
    code, page := reader.GetPageDataFromIndex(file, true, builder.documents[d].pageFileIndex, pages, i);
  }
}
