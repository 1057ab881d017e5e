/** Pages and their tokens: the words of a page in the order in which the index
    builder gives them positions. */
module Pages {
  import opened Text
  import opened Posting
  import opened Positions

  datatype Page = Page(
    distanceFromSeedlist: nat,
    url: string,
    words: seq<string>,
    titleWords: seq<string>,
    anchorText: seq<string>,
    pageFileRank: nat,
    pageFileNum: nat,
    pageFileIndex: nat)

  function Tag(terms: seq<string>, dec: Decoration): (r: seq<Token>)
    ensures |r| == |terms|
    ensures forall i :: 0 <= i < |terms| ==> r[i] == Token(terms[i], dec)
  {
    seq(|terms|, i requires 0 <= i < |terms| => Token(terms[i], dec))
  }

  // the folded words of one field of a page
  function Field(p: Page, dec: Decoration): seq<string> {
    match dec
    case Url => Runs(p.url)
    case Title => FoldAll(p.titleWords)
    case Body => FoldAll(p.words)
    case Anchor => FoldAll(p.anchorText)
    case _ => []
  }

  function Tokens(p: Page): Document {
    Tag(Field(p, Url), Url) + Tag(Field(p, Title), Title) +
    Tag(Field(p, Body), Body) + Tag(Field(p, Anchor), Anchor)
  }

  // where a field begins among the tokens of its page
  function FieldOffset(p: Page, dec: Decoration): nat {
    match dec
    case Title => |Field(p, Url)|
    case Body => |Field(p, Url)| + |Field(p, Title)|
    case Anchor => |Field(p, Url)| + |Field(p, Title)| + |Field(p, Body)|
    case _ => 0
  }

  // a token of a field is the word of that field at the same distance from its start
  lemma TokenIsFieldWord(p: Page, k: nat, dec: Decoration)
    requires k < |Tokens(p)| && IsField(dec)
    ensures Tokens(p)[k].dec == dec <==>
            FieldOffset(p, dec) <= k < FieldOffset(p, dec) + |Field(p, dec)|
    ensures Tokens(p)[k].dec == dec ==>
              Tokens(p)[k].term == Field(p, dec)[k - FieldOffset(p, dec)]
  {
  }

  lemma FieldWordIsToken(p: Page, j: nat, dec: Decoration)
    requires IsField(dec) && j < |Field(p, dec)|
    ensures FieldOffset(p, dec) + j < |Tokens(p)|
    ensures Tokens(p)[FieldOffset(p, dec) + j] == Token(Field(p, dec)[j], dec)
  {
  }

  // the naive reading: the term is a word of some field
  lemma HasTermIsInSomeField(p: Page, term: string)
    ensures HasTerm(Tokens(p), term) <==>
            || term in Runs(p.url)
            || term in FoldAll(p.titleWords)
            || term in FoldAll(p.words)
            || term in FoldAll(p.anchorText)
  {
    if HasTerm(Tokens(p), term) {
      var k :| 0 <= k < |Tokens(p)| && Tokens(p)[k].term == term;
      TokenIsFieldWord(p, k, Tokens(p)[k].dec);
    }
    forall dec, j | IsField(dec) && 0 <= j < |Field(p, dec)| && Field(p, dec)[j] == term
      ensures HasTerm(Tokens(p), term)
    {
      FieldWordIsToken(p, j, dec);
    }
    assert Field(p, Url) == Runs(p.url) && Field(p, Title) == FoldAll(p.titleWords);
    assert Field(p, Body) == FoldAll(p.words) && Field(p, Anchor) == FoldAll(p.anchorText);
    if term in Field(p, Url) || term in Field(p, Title) || term in Field(p, Body) || term in Field(p, Anchor) {
      var dec :| IsField(dec) && term in Field(p, dec);
      var j :| 0 <= j < |Field(p, dec)| && Field(p, dec)[j] == term;
    }
  }

  function Corpus(pages: seq<Page>): (r: seq<Document>)
    ensures |r| == |pages|
    ensures forall i :: 0 <= i < |pages| ==> r[i] == Tokens(pages[i])
  {
    seq(|pages|, i requires 0 <= i < |pages| => Tokens(pages[i]))
  }

  // the places of a field's word among the tokens of its page
  lemma FieldOccurrences(p: Page, dec: Decoration, term: string)
    requires IsField(dec)
    ensures multiset(Tokens(p))[Token(term, dec)] == multiset(Field(p, dec))[term]
  {
    hide Field;
    TagOccurrences(Field(p, Url), Url, Token(term, dec));
    TagOccurrences(Field(p, Title), Title, Token(term, dec));
    TagOccurrences(Field(p, Body), Body, Token(term, dec));
    TagOccurrences(Field(p, Anchor), Anchor, Token(term, dec));
  }

  lemma {:induction false} TagOccurrences(terms: seq<string>, dec: Decoration, token: Token)
    ensures multiset(Tag(terms, dec))[token] == if token.dec == dec then multiset(terms)[token.term] else 0
  {
    if terms != [] {
      var n := |terms| - 1;
      TagOccurrences(terms[..n], dec, token);
      assert terms == terms[..n] + [terms[n]];
      assert Tag(terms, dec) == Tag(terms[..n], dec) + [Token(terms[n], dec)];
    }
  }
}
