/** From query text to answers: parse, normalize, compile, walk, over the pages of an index. */
module QueryCompiling {
  import opened Wrappers
  import opened Text
  import opened Pages
  import opened Queries
  import opened Parsing
  import opened ParserProperties
  import opened Grammar
  import opened Normalization
  import opened Flattening
  import opened Engine
  import opened Derivations
  import opened Readings

  function Compiled(raw: string): Option<Query> {
    match RootText(raw).q
    case None => None
    case Some(tree) => Some(Normal(tree))
  }

  method Compile(raw: string) returns (ast: Option<Query>)
    ensures ast == Compiled(raw)
  {
    var tree := Parse(raw);
    if tree.None? {
      return None;
    }
    var normal := Normalize(tree.value);
    return Some(normal);
  }

  // what a compiled query looks like: a normal form in which every operator has operands
  // and every phrase has words
  lemma CompiledShape(raw: string)
    ensures Compiled(raw).Some? ==> IsNormal(Compiled(raw).value) && HasOperands(Compiled(raw).value)
  {
    hide RootText, Normal, IsNormal, HasOperands, Runs, WordsOf, IsGrown;
    ParseKeepsWords(raw);
    if RootText(raw).q.Some? {
      var tree := RootText(raw).q.value;
      GrownHasOperands(tree);
      NormalIsNormal(tree);
      NormalHasOperands(tree);
    }
  }

  lemma {:induction false} GrownHasOperands(q: Query)
    requires IsGrown(q)
    ensures HasOperands(q) && PhrasesHaveWords(q)
    decreases q
  {
    match q
    case And(kids) => forall k | k in kids ensures HasOperands(k) && PhrasesHaveWords(k) { GrownHasOperands(k); }
    case Or(kids) => forall k | k in kids ensures HasOperands(k) && PhrasesHaveWords(k) { GrownHasOperands(k); }
    case Not(inner) => GrownHasOperands(inner);
    case _ =>
  }

  // ---- the words of a query stay in order

  // a list within another: some of its elements, in its order
  ghost predicate IsWithin(a: seq<string>, b: seq<string>) {
    if a == [] then true
    else if b == [] then false
    else
      var m, n := |a| - 1, |b| - 1;
      IsWithin(a, b[..n]) || (a[m] == b[n] && IsWithin(a[..m], b[..n]))
  }

  lemma {:induction false} IsWithinItself(a: seq<string>)
    ensures IsWithin(a, a)
  {
    if a != [] {
      IsWithinItself(a[..|a| - 1]);
    }
  }

  lemma {:induction false} WithinStep(a: seq<string>, b: seq<string>)
    requires b != [] && IsWithin(a, b[..|b| - 1])
    ensures IsWithin(a, b)
  {
  }

  lemma {:induction false} WithinConcat(a: seq<string>, b: seq<string>, c: seq<string>, d: seq<string>)
    requires IsWithin(a, b) && IsWithin(c, d)
    ensures IsWithin(a + c, b + d)
    decreases |d|
  {
    if d == [] {
      assert a + c == a && b + d == b;
    } else {
      var n := |d| - 1;
      assert (b + d)[..|b| + n] == b + d[..n] && (b + d)[|b| + n] == d[n];
      if IsWithin(c, d[..n]) {
        WithinConcat(a, b, c, d[..n]);
        WithinStep(a + c, b + d);
      } else {
        var m := |c| - 1;
        WithinConcat(a, b, c[..m], d[..n]);
        assert (a + c)[..|a| + m] == a + c[..m] && (a + c)[|a| + m] == c[m];
      }
    }
  }

  lemma {:induction false} WithinWithin(a: seq<string>, b: seq<string>, c: seq<string>)
    requires IsWithin(a, b) && IsWithin(b, c)
    ensures IsWithin(a, c)
    decreases |c|
  {
    if a != [] {
      var m, n := |b| - 1, |c| - 1;
      if IsWithin(b, c[..n]) {
        WithinWithin(a, b, c[..n]);
      } else if IsWithin(a, b[..m]) {
        WithinWithin(a, b[..m], c[..n]);
      } else {
        WithinWithin(a[..|a| - 1], b[..m], c[..n]);
      }
    }
  }

  lemma {:induction false} WordsOfConcat(a: seq<Query>, b: seq<Query>)
    ensures WordsOfAll(a + b) == WordsOfAll(a) + WordsOfAll(b)
    decreases |b|
  {
    hide WordsOf;
    if b == [] {
      assert a + b == a;
    } else {
      var n := |b| - 1;
      assert (a + b)[..|a| + n] == a + b[..n] && (a + b)[|a| + n] == b[n];
      WordsOfConcat(a, b[..n]);
    }
  }

  lemma {:induction false} SplicedWords(kids: seq<Query>, conj: bool)
    ensures WordsOfAll(Spliced(kids, conj)) == WordsOfAll(kids)
  {
    if kids != [] {
      var n := |kids| - 1;
      var last := kids[n];
      SplicedWords(kids[..n], conj);
      var own := if IsNested(last, conj) then last.kids else [last];
      OwnWords(last);
      WordsOfConcat(Spliced(kids[..n], conj), own);
    }
  }

  lemma OwnWords(q: Query)
    ensures WordsOfAll([q]) == WordsOf(q)
    ensures q.And? || q.Or? ==> WordsOfAll(q.kids) == WordsOf(q)
  {
    assert [q][..0] == [];
    assert WordsOfAll([]) == [];
  }

  lemma {:induction false} NonStopWords(kids: seq<Query>)
    ensures IsWithin(WordsOfAll(NonStops(kids)), WordsOfAll(kids))
  {
    hide WordsOf, IsStop;
    if kids != [] {
      var n := |kids| - 1;
      var own := if IsStop(kids[n]) then [] else [kids[n]];
      NonStopWords(kids[..n]);
      WordsOfConcat(NonStops(kids[..n]), own);
      OwnWords(kids[n]);
      IsWithinItself(WordsOf(kids[n]));
      WithinConcat(WordsOfAll(NonStops(kids[..n])), WordsOfAll(kids[..n]), WordsOfAll(own), WordsOf(kids[n]));
    }
  }

  // flattening keeps all words in their order, and dropping stop words the order of the others
  lemma {:induction false} NormalKeepsOrder(q: Query)
    ensures IsWithin(WordsOf(Normal(q)), WordsOf(q)) && WordsOf(Flat(q)) == WordsOf(q)
    decreases q
  {
    hide IsWithin, Spliced, DropStops;
    match q {
      case And(kids) =>
        KidsKeepOrder(kids, q);
        SplicedWords(NormalAll(kids), true);
        SplicedWords(FlatAll(kids), true);
        DroppedWords(Spliced(NormalAll(kids), true));
        WithinWithin(WordsOf(Normal(q)), WordsOfAll(NormalAll(kids)), WordsOf(q));
      case Or(kids) =>
        KidsKeepOrder(kids, q);
        SplicedWords(NormalAll(kids), false);
        SplicedWords(FlatAll(kids), false);
      case Not(inner) => NormalKeepsOrder(inner);
      case _ => IsWithinItself(WordsOf(q));
    }
  }

  lemma DroppedWords(kids: seq<Query>)
    ensures IsWithin(WordsOfAll(DropStops(kids)), WordsOfAll(kids))
  {
    NonStopWords(kids);
    IsWithinItself(WordsOfAll(kids));
  }

  lemma {:induction false} KidsKeepOrder(kids: seq<Query>, q: Query)
    requires forall k :: k in kids ==> k < q
    ensures IsWithin(WordsOfAll(NormalAll(kids)), WordsOfAll(kids)) && WordsOfAll(FlatAll(kids)) == WordsOfAll(kids)
    decreases q, 0, |kids|
  {
    hide Normal, Flat, WordsOf, IsWithin;
    if kids == [] {
      IsWithinItself([]);
    } else {
      var n := |kids| - 1;
      assert kids[n] in kids && forall k :: k in kids[..n] ==> k in kids;
      KidsKeepOrder(kids[..n], q);
      NormalKeepsOrder(kids[n]);
      LastKid(kids);
      hide NormalAll, FlatAll, WordsOfAll;
      var words, last := WordsOfAll(NormalAll(kids[..n])), WordsOf(Normal(kids[n]));
      WithinConcat(words, WordsOfAll(kids[..n]), last, WordsOf(kids[n]));
    }
  }

  lemma LastKid(kids: seq<Query>)
    requires kids != []
    ensures var n := |kids| - 1;
            && WordsOfAll(kids) == WordsOfAll(kids[..n]) + WordsOf(kids[n])
            && WordsOfAll(NormalAll(kids)) == WordsOfAll(NormalAll(kids[..n])) + WordsOf(Normal(kids[n]))
            && WordsOfAll(FlatAll(kids)) == WordsOfAll(FlatAll(kids[..n])) + WordsOf(Flat(kids[n]))
  {
    hide Normal, Flat, WordsOf;
    var n := |kids| - 1;
    assert NormalAll(kids)[..n] == NormalAll(kids[..n]) && FlatAll(kids)[..n] == FlatAll(kids[..n]);
  }

  // ---- queries without stop words are searched as they stand

  predicate HasNoStopWords(q: Query)
    decreases q
  {
    match q
    case Word(term) => !IsStopWord(term)
    case Phrase(_) => true
    case And(kids) => forall k :: k in kids ==> HasNoStopWords(k)
    case Or(kids) => forall k :: k in kids ==> HasNoStopWords(k)
    case Not(inner) => HasNoStopWords(inner)
  }

  lemma {:induction false} FlatHasNoStopWords(q: Query)
    requires HasNoStopWords(q)
    ensures HasNoStopWords(Flat(q)) && Normal(q) == Flat(q)
    decreases q
  {
    hide IsStopWord, Spliced, DropStops;
    match q {
      case And(kids) =>
        KidsHaveNoStopWords(kids, q);
        SplicedHasNoStopWords(FlatAll(kids), true);
        NothingToDrop(Spliced(FlatAll(kids), true));
      case Or(kids) =>
        KidsHaveNoStopWords(kids, q);
        SplicedHasNoStopWords(FlatAll(kids), false);
      case Not(inner) => FlatHasNoStopWords(inner);
      case _ =>
    }
  }

  lemma {:induction false} KidsHaveNoStopWords(kids: seq<Query>, q: Query)
    requires forall k :: k in kids ==> k < q && HasNoStopWords(k)
    ensures NormalAll(kids) == FlatAll(kids) && forall k :: k in FlatAll(kids) ==> HasNoStopWords(k)
    decreases q, 0
  {
    hide Normal, Flat, HasNoStopWords;
    forall i | 0 <= i < |kids| ensures NormalAll(kids)[i] == FlatAll(kids)[i] && HasNoStopWords(FlatAll(kids)[i]) {
      assert kids[i] in kids;
      FlatHasNoStopWords(kids[i]);
    }
  }

  lemma SplicedHasNoStopWords(kids: seq<Query>, conj: bool)
    requires forall k :: k in kids ==> HasNoStopWords(k)
    ensures forall k :: k in Spliced(kids, conj) ==> HasNoStopWords(k) && !IsStop(k)
  {
    hide Spliced, IsStopWord;
    SplicedMembers(kids, conj);
  }

  lemma FlatMatches(q: Query, page: Page)
    requires PhrasesHaveWords(q) && PhrasesHaveWords(Flat(q))
    ensures Matches(Flat(q), page) <==> Matches(q, page)
  {
    hide Matches, Flat, Tokens, Eval, PhrasesHaveWords;
    EvalIsMatches(q, page);
    EvalIsMatches(Flat(q), page);
    FlatMeans(q, Tokens(page));
  }

  lemma WellPlacedHasWords(q: Query)
    requires NotsWellPlaced(q)
    ensures PhrasesHaveWords(q)
  {
    hide Answerable, NotsWellPlaced, PhrasesHaveWords;
    AnswerableIsWhole(q);
    AnswerableHasWords(q);
  }

  // ---- the whole chain

  // what is found for a text: the pages that its derivations want, and none if it comes to nothing
  ghost predicate AnswersText(matches: seq<int>, pages: seq<Page>, raw: string) {
    && (forall q, tail :: IsQuery(q, tail) && raw == QueryString(q, tail) ==> AreWanted(matches, pages, q))
    && (forall ms, tail :: AreMisses(ms, tail) && raw == MissesString(ms, tail) ==> matches == [])
  }

  lemma CompiledAnswersText(matches: seq<int>, pages: seq<Page>, raw: string)
    requires Compiled(raw).None? ==> matches == []
    requires Compiled(raw).Some? ==> AreFound(matches, pages, Compiled(raw).value)
    ensures AnswersText(matches, pages, raw)
  {
    hide IsQuery, AreMisses, QueryString, MissesString, QueryTree, Normal, AreWanted, AreFound, RootText, SkipSpace;
    forall q, tail | IsQuery(q, tail) && raw == QueryString(q, tail) ensures AreWanted(matches, pages, q) {
      DerivationParses(q, tail);
      FoundAreWanted(matches, pages, q);
    }
    forall ms, tail | AreMisses(ms, tail) && raw == MissesString(ms, tail) ensures matches == [] {
      MissesHaveNoTree(ms, tail);
    }
  }

  // which settles what is found, as every text derives one way or the other
  lemma AnswersAreSettled(matches: seq<int>, pages: seq<Page>, raw: string) returns (d: Derived<QueryRule, Misses>)
    requires AnswersText(matches, pages, raw)
    ensures match d
            case Made(q) => (exists tail :: IsQuery(q, tail) && raw == QueryString(q, tail)) &&
                            AreWanted(matches, pages, q)
            case Missed(_) => matches == []
  {
    hide IsQuery, AreMisses, QueryString, MissesString, AreWanted, RootText;
    var tail;
    d, tail := EveryTextDerives(raw);
  }

  // the pages found for a text: those that its compiled form finds
  method SearchText(pages: seq<Page>, raw: string) returns (matches: seq<int>)
    requires Indexable(Corpus(pages))
    ensures AnswersText(matches, pages, raw)
    ensures Compiled(raw).Some? ==> AreFound(matches, pages, Compiled(raw).value)
    ensures Compiled(raw).None? || Answerable(Compiled(raw).value).None? ==> matches == []
    ensures Compiled(raw).Some? && Answerable(Compiled(raw).value).Some? ==>
              AreMatches(matches, pages, Answerable(Compiled(raw).value).value)
    ensures Compiled(raw).Some? && NotsWellPlaced(Compiled(raw).value) ==>
              AreMatches(matches, pages, Compiled(raw).value)
  {
    hide Compiled, Answerable, AreMatches, AreFound, NotsWellPlaced, Indexable, AnswersText;
    var ast := Compile(raw);
    if ast.None? {
      CompiledAnswersText([], pages, raw);
      return [];
    }
    matches := BuildAndSearch(pages, ast.value);
    CompiledAnswersText(matches, pages, raw);
  }

  // what that is in terms of a tree of the grammar: the pages that satisfy the answerable part of its
  // normal form; the pages on which the tree itself is true when it has no stop words and its
  // NOTs are well placed; and every such page, with others perhaps, when it has stop words but
  // no NOT
  ghost predicate AnswersTree(matches: seq<int>, pages: seq<Page>, q: Query) {
    && (Answerable(Normal(q)).None? ==> matches == [])
    && (Answerable(Normal(q)).Some? ==> AreMatches(matches, pages, Answerable(Normal(q)).value))
    && (HasNoStopWords(q) && NotsWellPlaced(q) ==> AreMatches(matches, pages, q))
    && (IsNotFree(q) ==> forall d :: 0 <= d < |pages| && Matches(q, pages[d]) ==> d in matches)
  }

  // every derivation of the grammar, and whatever the parser leaves after it
  method SearchDerivation(pages: seq<Page>, ghost q: QueryRule, ghost tail: string, raw: string)
    returns (matches: seq<int>)
    requires Indexable(Corpus(pages))
    requires IsQuery(q, tail) && raw == QueryString(q, tail)
    ensures AreWanted(matches, pages, q)
    ensures AnswersTree(matches, pages, QueryTree(q))
  {
    hide AreWanted, QueryTree, QueryString, IsQuery, HasNoStopWords, NotsWellPlaced, Indexable, Normal, Flat,
         Answerable, RootText, AnswersTree, AreMatches;
    DerivationCompiles(q, tail);
    matches := SearchText(pages, raw);
    CompiledAnswersTree(matches, pages, QueryTree(q));
  }

  lemma DerivationCompiles(q: QueryRule, tail: string)
    requires IsQuery(q, tail)
    ensures Compiled(QueryString(q, tail)) == Some(Normal(QueryTree(q)))
    ensures HasOperands(QueryTree(q)) && PhrasesHaveWords(QueryTree(q))
  {
    hide QueryTree, QueryString, IsQuery, Normal, RootText, HasOperands, PhrasesHaveWords, Runs, WordsOf, IsGrown,
         SkipSpace;
    DerivationParses(q, tail);
    ParseKeepsWords(QueryString(q, tail));
    GrownHasOperands(QueryTree(q));
  }

  lemma CompiledAnswersTree(matches: seq<int>, pages: seq<Page>, q: Query)
    requires HasOperands(q) && PhrasesHaveWords(q)
    requires Answerable(Normal(q)).None? ==> matches == []
    requires Answerable(Normal(q)).Some? ==> AreMatches(matches, pages, Answerable(Normal(q)).value)
    ensures AnswersTree(matches, pages, q)
  {
    hide HasOperands, PhrasesHaveWords, Answerable, Normal, Flat, AreMatches, HasNoStopWords, NotsWellPlaced, IsNotFree,
         Matches;
    AnswerableIsWhole(Normal(q));
    if HasNoStopWords(q) && NotsWellPlaced(q) {
      FlatHasNoStopWords(q);
      FlatIsWellPlaced(q);
      FlatAreMatches(matches, pages, q);
    }
    if IsNotFree(q) {
      PlainIsKept(q);
      NoneIsLost(matches, pages, q);
    }
  }

  lemma FlatAreMatches(matches: seq<int>, pages: seq<Page>, q: Query)
    requires NotsWellPlaced(q) && NotsWellPlaced(Flat(q)) && AreMatches(matches, pages, Flat(q))
    ensures AreMatches(matches, pages, q)
  {
    hide NotsWellPlaced, Flat, Matches;
    WellPlacedHasWords(q);
    WellPlacedHasWords(Flat(q));
    forall d | 0 <= d < |pages| ensures Matches(Flat(q), pages[d]) <==> Matches(q, pages[d]) {
      FlatMatches(q, pages[d]);
    }
  }

  // ---- stop words, but no NOT

  // a tree without NOT, whose operators have operands and whose phrases have words
  ghost predicate IsPlainTree(q: Query) {
    IsNotFree(q) && HasOperands(q) && PhrasesHaveWords(q)
  }

  lemma PlainIsKept(q: Query)
    requires IsPlainTree(q)
    ensures NotsWellPlaced(Normal(q)) && PhrasesHaveWords(Normal(q))
  {
    hide IsPlainTree, NotsWellPlaced, PhrasesHaveWords, Normal;
    NormalIsPlain(q);
    PlainIsWellPlaced(Normal(q));
    WellPlacedHasWords(Normal(q));
  }

  lemma {:induction false} PlainIsWellPlaced(q: Query)
    requires IsPlainTree(q)
    ensures NotsWellPlaced(q)
    decreases q
  {
    match q
    case And(kids) =>
      assert kids[0] in kids;
      forall k | k in kids ensures NotsWellPlaced(k) && !k.Not? { PlainIsWellPlaced(k); }
    case Or(kids) => forall k | k in kids ensures NotsWellPlaced(k) { PlainIsWellPlaced(k); }
    case _ =>
  }

  lemma {:induction false} NormalIsPlain(q: Query)
    requires IsPlainTree(q)
    ensures IsPlainTree(Normal(q))
    decreases q
  {
    hide IsStop, Spliced, DropStops;
    match q
    case And(kids) =>
      KidsArePlain(kids, q);
      SplicedIsPlain(NormalAll(kids), true);
      DropStopsMembers(Spliced(NormalAll(kids), true));
    case Or(kids) =>
      KidsArePlain(kids, q);
      SplicedIsPlain(NormalAll(kids), false);
    case _ =>
  }

  lemma {:induction false} KidsArePlain(kids: seq<Query>, q: Query)
    requires forall k :: k in kids ==> k < q && IsPlainTree(k)
    ensures forall k :: k in NormalAll(kids) ==> IsPlainTree(k)
    decreases q, 0
  {
    hide Normal, IsPlainTree;
    forall i | 0 <= i < |kids| ensures IsPlainTree(NormalAll(kids)[i]) {
      assert kids[i] in kids;
      NormalIsPlain(kids[i]);
    }
  }

  lemma SplicedIsPlain(kids: seq<Query>, conj: bool)
    requires kids != [] && forall k :: k in kids ==> IsPlainTree(k)
    ensures Spliced(kids, conj) != [] && forall k :: k in Spliced(kids, conj) ==> IsPlainTree(k)
  {
    SplicedMembers(kids, conj);
    SplicedHasOperands(kids, conj);
  }

  lemma NoneIsLost(matches: seq<int>, pages: seq<Page>, q: Query)
    requires IsNotFree(q) && PhrasesHaveWords(q) && PhrasesHaveWords(Normal(q))
    requires AreMatches(matches, pages, Normal(q))
    ensures forall d :: 0 <= d < |pages| && Matches(q, pages[d]) ==> d in matches
  {
    hide IsNotFree, PhrasesHaveWords, Matches, Normal, Tokens, Eval;
    forall d | 0 <= d < |pages| && Matches(q, pages[d]) ensures Matches(Normal(q), pages[d]) {
      EvalIsMatches(q, pages[d]);
      NormalEnlarges(q, Tokens(pages[d]));
      EvalIsMatches(Normal(q), pages[d]);
    }
  }
}
