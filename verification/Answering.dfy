/** The whole chain through the file: pages are indexed, the index is written and mapped, and
    the text of a query is answered from the mapped bytes. */
module Answering {
  import opened Text
  import opened Bytes
  import opened Positions
  import opened Pages
  import opened IndexBuilding
  import opened IndexReading
  import opened Queries
  import opened Parsing
  import opened ParserProperties
  import opened Grammar
  import opened Normalization
  import opened Flattening
  import opened BlobFormat
  import opened BlobReading
  import opened Searching
  import opened Engine
  import opened Readings
  import opened QueryCompiling
  import opened Storage

  // ---- the words of a compiled query can be looked up in the blob

  lemma {:induction false} TermsAreWords(q: Query)
    ensures forall t :: t in Terms(q) ==> t in WordsOf(q)
    decreases q
  {
    match q
    case And(kids) => KidsTermsAreWords(kids);
    case Or(kids) => KidsTermsAreWords(kids);
    case Not(inner) => TermsAreWords(inner);
    case _ =>
  }

  lemma {:induction false} KidsTermsAreWords(kids: seq<Query>)
    ensures forall k, t :: k in kids && t in Terms(k) ==> t in WordsOfAll(kids)
    decreases kids
  {
    hide Terms, WordsOf;
    if kids != [] {
      KidsTermsAreWords(kids[..|kids| - 1]);
      TermsAreWords(kids[|kids| - 1]);
    }
  }

  lemma {:induction false} NormalHasTerms(q: Query)
    ensures Terms(Normal(q)) <= Terms(q)
    decreases q
  {
    match q
    case And(kids) =>
      var spliced := Spliced(NormalAll(kids), true);
      SplicedTerms(q, kids, true);
      DropStopsMembers(spliced);
    case Or(kids) => SplicedTerms(q, kids, false);
    case Not(inner) => NormalHasTerms(inner);
    case _ =>
  }

  lemma {:induction false} SplicedTerms(q: Query, kids: seq<Query>, conj: bool)
    requires forall k :: k in kids ==> k < q
    requires forall k :: k in kids ==> Terms(k) <= Terms(q)
    ensures forall k :: k in Spliced(NormalAll(kids), conj) ==> Terms(k) <= Terms(q)
    decreases q, 0
  {
    hide Normal;
    forall k | k in kids ensures Terms(Normal(k)) <= Terms(q) {
      NormalHasTerms(k);
    }
    SplicedMembers(NormalAll(kids), conj);
  }

  lemma CompiledTermsFit(raw: string)
    ensures Compiled(raw).Some? ==> forall t :: t in Terms(Compiled(raw).value) ==> IsTerm(t)
  {
    hide RootText, Normal, Terms, WordsOf, Runs, IsGrown;
    if RootText(raw).q.Some? {
      var tree := RootText(raw).q.value;
      ParseKeepsWords(raw);
      NormalHasTerms(tree);
      TermsAreWords(tree);
      forall t | t in WordsOf(tree) ensures IsTerm(t) {
        assert t in Runs(raw);
        RunIsTerm(raw, t);
      }
    }
  }

  lemma RunIsTerm(s: string, t: string)
    requires t in Runs(s)
    ensures IsTerm(t)
  {
    hide Runs;
    RunsAreWords(s);
  }

  // ---- the answer

  // the pages found for a text in the mapped index: those that its derivation wants
  method AnswerText(pages: seq<Page>, raw: string, h: string -> nat)
    returns (fits: bool, matches: seq<int>, s: Snapshot)
    requires Indexable(Corpus(pages))
    requires (forall p :: p in pages ==> IsStorable(p)) && (forall term :: IsU64(h(term)))
    ensures AreMetadataOf(s.documents, pages) && fits == KeepsWidths(s)
    ensures fits ==> AnswersText(matches, pages, raw)
    ensures fits && Compiled(raw).Some? ==> AreFound(matches, pages, Compiled(raw).value)
    ensures Compiled(raw).None? || Answerable(Compiled(raw).value).None? ==> matches == []
    ensures fits && Compiled(raw).Some? && Answerable(Compiled(raw).value).Some? ==>
              AreMatches(matches, pages, Answerable(Compiled(raw).value).value)
    ensures fits && Compiled(raw).Some? && NotsWellPlaced(Compiled(raw).value) ==>
              AreMatches(matches, pages, Compiled(raw).value)
  {
    hide Start, Tokens, Serves, Mirrors, HashedBy, KeepsWidths, IsStorable, Indexable, IsTerm, AreMetadataOf,
         Compiled, Answerable, IsAnswer, AreMatches, IsFound, AreFound, NotsWellPlaced, Terms, AnswersText;
    CompiledTermsFit(raw);
    var index, ok, snapshot, ix := BuildAndLoad(pages, h);
    s, matches := snapshot, [];
    fits := KeepsWidths(s);
    var ast := Compile(raw);
    if fits && ast.Some? {
      matches := SearchBlob(index, ast.value, h, Corpus(pages), s, ix);
      AnswersMatch(matches, pages, ast.value);
      FoundAreFound(matches, pages, ast.value);
    }
    if fits {
      CompiledAnswersText(matches, pages, raw);
    }
  }

  // the same for every derivation of the grammar
  method AnswerDerivation(pages: seq<Page>, ghost q: QueryRule, ghost tail: string, raw: string, h: string -> nat)
    returns (fits: bool, matches: seq<int>, s: Snapshot)
    requires Indexable(Corpus(pages))
    requires (forall p :: p in pages ==> IsStorable(p)) && (forall term :: IsU64(h(term)))
    requires IsQuery(q, tail) && raw == QueryString(q, tail)
    ensures AreMetadataOf(s.documents, pages) && fits == KeepsWidths(s)
    ensures fits ==> AreWanted(matches, pages, q)
    ensures fits ==> AnswersTree(matches, pages, QueryTree(q))
  {
    hide QueryTree, QueryString, IsQuery, NotsWellPlaced, Indexable, Normal, Flat, Answerable, RootText, AnswersTree,
         AreMatches, AreMetadataOf, KeepsWidths, IsStorable, AreWanted;
    DerivationCompiles(q, tail);
    fits, matches, s := AnswerText(pages, raw, h);
    if fits {
      CompiledAnswersTree(matches, pages, QueryTree(q));
    }
  }
}
