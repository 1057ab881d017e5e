/** The query grammar as the parser reads it: the documented rules, and what it tolerates: stray
    characters, missing closers, operands that come to nothing. Every text has a derivation, and
    parses to the tree of any derivation it has. */
module Grammar {
  import opened Wrappers
  import opened Text
  import opened Queries
  import opened Positions
  import opened PhraseReading
  import opened Parsing
  import opened ParserProperties

  // a query, which may follow one operand that comes to nothing
  datatype QueryRule = Whole(query: OrRule) | Retried(miss: Miss, before: string, query: OrRule)

  // alternatives; after a last '|' there may be nothing
  datatype OrRule =
    | Operand(operand: AndRule)
    | Alternative(operand: AndRule, before: string, others: OrRule)
    | Dangling(operand: AndRule, before: string, miss: Miss)

  // operands in a row; what comes to nothing ends the row
  datatype AndRule =
    | Single(unary: UnaryRule)
    | Conjunction(unary: UnaryRule, others: AndRule)
    | Cut(unary: UnaryRule, miss: Miss)

  // what stands before an operand: spaces, a '-', stray characters
  datatype UnaryRule = Unary(lead: string, head: Head)

  datatype Head =
    | Bare(word: string)
    | Quoted(open: string, words: seq<QuotedWord>, closed: bool)
    | Group(query: QueryRule, close: Close)

  datatype QuotedWord = QuotedWord(word: string, gap: string)

  datatype Close = Closed(spaces: string) | Unclosed

  // what comes to nothing: the end of the text, quotes without words, a group of such
  datatype Miss = Miss(lead: string, hollow: Hollow)

  datatype Hollow = End | EmptyQuote(filler: string, closed: bool) | EmptyGroup(misses: Misses, close: Close)

  datatype Misses = One(miss: Miss) | Two(miss: Miss, before: string, second: Miss)

  // ---- the text of a derivation, with `tail` after it

  function QueryString(q: QueryRule, tail: string): string
    decreases q
  {
    match q
    case Whole(query) => OrString(query, tail)
    case Retried(miss, before, query) => MissString(miss, before + ("|" + OrString(query, tail)))
  }

  function OrString(o: OrRule, tail: string): string
    decreases o
  {
    match o
    case Operand(operand) => AndString(operand, tail)
    case Alternative(operand, before, others) => AndString(operand, before + ("|" + OrString(others, tail)))
    case Dangling(operand, before, miss) => AndString(operand, before + ("|" + MissString(miss, tail)))
  }

  function AndString(a: AndRule, tail: string): string
    decreases a
  {
    match a
    case Single(unary) => UnaryString(unary, tail)
    case Conjunction(unary, others) => UnaryString(unary, AndString(others, tail))
    case Cut(unary, miss) => UnaryString(unary, MissString(miss, tail))
  }

  function UnaryString(u: UnaryRule, tail: string): string
    decreases u
  {
    u.lead + HeadString(u.head, tail)
  }

  function HeadString(h: Head, tail: string): string
    decreases h
  {
    match h
    case Bare(word) => word + tail
    case Quoted(open, words, closed) => "\"" + (open + QuotedString(words, CloseQuote(closed, tail)))
    case Group(query, close) => "(" + QueryString(query, CloseString(close, tail))
  }

  function QuotedString(words: seq<QuotedWord>, tail: string): string {
    if words == [] then tail else words[0].word + (words[0].gap + QuotedString(words[1..], tail))
  }

  function CloseQuote(closed: bool, tail: string): string { if closed then "\"" + tail else tail }

  function CloseString(close: Close, tail: string): string {
    match close
    case Closed(spaces) => spaces + (")" + tail)
    case Unclosed => tail
  }

  function MissString(m: Miss, tail: string): string
    decreases m
  {
    m.lead + HollowString(m.hollow, tail)
  }

  function HollowString(h: Hollow, tail: string): string
    decreases h
  {
    match h
    case End => tail
    case EmptyQuote(filler, closed) => "\"" + (filler + CloseQuote(closed, tail))
    case EmptyGroup(misses, close) => "(" + MissesString(misses, CloseString(close, tail))
  }

  function MissesString(ms: Misses, tail: string): string
    decreases ms
  {
    match ms
    case One(miss) => MissString(miss, tail)
    case Two(miss, before, second) => MissString(miss, before + ("|" + MissString(second, tail)))
  }

  // ---- derivations, before a tail

  predicate AreSpaces(s: string) { forall k :: 0 <= k < |s| ==> IsSpace(s[k]) }

  predicate IsPlainWord(w: string) { w != "" && forall k :: 0 <= k < |w| ==> IsWordChar(w[k]) }

  // what starts no operand: anything but a word, a parenthesis that opens, and a quote
  predicate IsFiller(s: string) {
    forall k :: 0 <= k < |s| ==> !IsWordChar(s[k]) && s[k] != '(' && s[k] != '"'
  }

  // what is no word inside quotes
  predicate IsQuoteFiller(s: string) { forall k :: 0 <= k < |s| ==> !IsWordChar(s[k]) && s[k] != '"' }

  predicate StartsNoWord(tail: string) { tail == "" || !IsWordChar(tail[0]) }

  // past the spaces, the character
  predicate NextIs(s: string, c: char) { StartsWith(SkipSpace(s), c) }

  // a '-' negates when only spaces stand before it; after any other stray character it is one too
  predicate HasDash(lead: string) { NextIs(lead, '-') }

  // an operand after the first one of its row must not start with what ends the row; after any
  // other stray character, or a '-', these are strays too
  predicate GoesOn(lead: string) { !NextIs(lead, '|') && !NextIs(lead, ')') }

  predicate EndsAnd(tail: string) { SkipSpace(tail) == "" || NextIs(tail, '|') || NextIs(tail, ')') }

  predicate IsQuery(q: QueryRule, tail: string)
    decreases q
  {
    match q
    case Whole(query) => IsOr(query, tail)
    case Retried(miss, before, query) =>
      IsMiss(miss, before + ("|" + OrString(query, tail)), true) && AreSpaces(before) && IsOr(query, tail)
  }

  predicate IsOr(o: OrRule, tail: string)
    decreases o
  {
    match o
    case Operand(operand) => IsAnd(operand, tail, true) && !NextIs(tail, '|')
    case Alternative(operand, before, others) =>
      IsAnd(operand, before + ("|" + OrString(others, tail)), true) && AreSpaces(before) && IsOr(others, tail)
    case Dangling(operand, before, miss) =>
      IsAnd(operand, before + ("|" + MissString(miss, tail)), true) && AreSpaces(before) && IsMiss(miss, tail, true)
  }

  predicate IsAnd(a: AndRule, tail: string, first: bool)
    decreases a
  {
    match a
    case Single(unary) => IsUnary(unary, tail, first) && EndsAnd(tail)
    case Conjunction(unary, others) => IsUnary(unary, AndString(others, tail), first) && IsAnd(others, tail, false)
    case Cut(unary, miss) => IsUnary(unary, MissString(miss, tail), first) && IsMiss(miss, tail, false)
  }

  predicate IsUnary(u: UnaryRule, tail: string, first: bool)
    decreases u
  {
    IsFiller(u.lead) && (first || GoesOn(u.lead)) && IsHead(u.head, tail)
  }

  predicate IsHead(h: Head, tail: string)
    decreases h
  {
    match h
    case Bare(word) => IsPlainWord(word) && StartsNoWord(tail)
    case Quoted(open, words, closed) =>
      IsQuoteFiller(open) && words != [] && AreQuoted(words) && (closed || tail == "")
    case Group(query, close) => IsQuery(query, CloseString(close, tail)) && IsClose(close, tail)
  }

  predicate AreQuoted(words: seq<QuotedWord>) {
    && (forall k :: 0 <= k < |words| ==> IsPlainWord(words[k].word) && IsQuoteFiller(words[k].gap))
    && (forall k :: 0 <= k < |words| - 1 ==> words[k].gap != "")
  }

  predicate IsClose(close: Close, tail: string) {
    match close
    case Closed(spaces) => AreSpaces(spaces)
    case Unclosed => !NextIs(tail, ')')
  }

  predicate IsMiss(m: Miss, tail: string, first: bool)
    decreases m
  {
    && IsFiller(m.lead)
    && (first || (GoesOn(m.lead) && (m.hollow.End? ==> SkipSpace(m.lead) != "")))
    && IsHollow(m.hollow, tail)
  }

  predicate IsHollow(h: Hollow, tail: string)
    decreases h
  {
    match h
    case End => tail == ""
    case EmptyQuote(filler, closed) => IsQuoteFiller(filler) && (closed || tail == "")
    case EmptyGroup(misses, close) => AreMisses(misses, CloseString(close, tail)) && IsClose(close, tail)
  }

  predicate AreMisses(ms: Misses, tail: string)
    decreases ms
  {
    match ms
    case One(miss) => IsMiss(miss, tail, true) && !NextIs(tail, '|')
    case Two(miss, before, second) =>
      IsMiss(miss, before + ("|" + MissString(second, tail)), true) && AreSpaces(before) && IsMiss(second, tail, true)
  }

  // ---- the tree of a derivation

  function QueryTree(q: QueryRule): Query
    decreases q, 2
  {
    OrTree(q.query)
  }

  function OrTree(o: OrRule): Query
    decreases o, 1
  {
    var trees := OrTrees(o);
    if |trees| == 1 then trees[0]
    else if trees[0].Or? then Or(trees[0].kids + trees[1..])
    else Or(trees)
  }

  function OrTrees(o: OrRule): (trees: seq<Query>)
    ensures trees != []
    decreases o, 0
  {
    [AndTree(o.operand)] + if o.Alternative? then OrTrees(o.others) else []
  }

  function AndTree(a: AndRule): Query
    decreases a, 1
  {
    var trees := AndTrees(a);
    if |trees| == 1 then trees[0] else And(trees)
  }

  function AndTrees(a: AndRule): (trees: seq<Query>)
    ensures trees != []
    decreases a, 0
  {
    [UnaryTree(a.unary)] + if a.Conjunction? then AndTrees(a.others) else []
  }

  function UnaryTree(u: UnaryRule): Query
    decreases u, 0
  {
    if HasDash(u.lead) then Not(HeadTree(u.head)) else HeadTree(u.head)
  }

  function HeadTree(h: Head): Query
    decreases h, 0
  {
    match h
    case Bare(word) => Word(Fold(word))
    case Quoted(_, words, _) =>
      var folded := QuotedWords(words);
      if |folded| == 1 then Word(folded[0]) else Phrase(folded)
    case Group(query, _) => QueryTree(query)
  }

  function QuotedWords(words: seq<QuotedWord>): seq<string> {
    if words == [] then [] else [Fold(words[0].word)] + QuotedWords(words[1..])
  }

  // the left operand's own alternatives join the others; the meaning is that of the operands
  lemma OrTreeMeans(o: OrRule, doc: Document)
    ensures Eval(OrTree(o), doc) <==> exists t :: t in OrTrees(o) && Eval(t, doc)
  {
    hide OrTrees, HasTerm, HasPhrase;
    var trees := OrTrees(o);
    assert trees == [trees[0]] + trees[1..];
    if trees[0].Or? && |trees| > 1 {
      var kids := trees[0].kids;
      assert forall k :: k in kids + trees[1..] <==> k in kids || k in trees[1..];
      assert forall k :: k in trees <==> k == trees[0] || k in trees[1..];
      assert Eval(trees[0], doc) <==> exists k :: k in kids && Eval(k, doc);
    }
  }

  // ---- what the parser skips

  // a reading that gives q and leaves the tail, spaces aside
  ghost predicate Reads(p: Parsed, q: Option<Query>, tail: string) {
    p.q == q && SkipSpace(p.rest) == SkipSpace(tail)
  }

  lemma {:induction false} SpacesSkipped(spaces: string, s: string)
    requires AreSpaces(spaces)
    ensures SkipSpace(spaces + s) == SkipSpace(s)
  {
    if spaces == "" {
      assert spaces + s == s;
    } else {
      assert (spaces + s)[1..] == spaces[1..] + s;
      SpacesSkipped(spaces[1..], s);
    }
  }

  lemma NoSpaceToSkip(s: string)
    requires s == "" || !IsSpace(s[0])
    ensures SkipSpace(s) == s
  {
  }

  lemma UnarySkips(s: string)
    ensures UnaryText(SkipSpace(s)) == UnaryText(s)
  {
    hide PrimaryText, SkipSpace;
    SkipSpaceTwice(s);
  }

  lemma AndTextSkips(s: string)
    ensures AndText(SkipSpace(s)) == AndText(s)
  {
    hide UnaryText, SkipSpace, AndTail;
    SkipSpaceTwice(s);
  }

  lemma OrTextSkips(s: string)
    ensures OrText(SkipSpace(s)) == OrText(s)
  {
    hide AndText, SkipSpace, OrTail;
    AndTextSkips(s);
  }

  lemma TailsSkip(kids: seq<Query>, left: Option<Query>, s: string, t: string)
    requires SkipSpace(s) == SkipSpace(t)
    ensures kids != [] ==> AndTail(kids, s) == AndTail(kids, t)
    ensures OrTail(left, s) == OrTail(left, t)
    ensures AfterClose(s) == AfterClose(t)
  {
    hide UnaryText, AndText, SkipSpace, JoinOr, WrapAnd;
  }

  lemma {:induction false} LeadSkipped(lead: string, s: string)
    requires IsFiller(lead)
    ensures PrimaryText(lead + s) == PrimaryText(s)
  {
    if lead == "" {
      assert lead + s == s;
    } else {
      var rest := lead[1..];
      assert (lead + s)[1..] == rest + s && (lead + s)[0] == lead[0];
      LeadSkipped(rest, s);
      OneSkipped(lead[0], rest + s, lead + s);
    }
  }

  lemma OneSkipped(c: char, s: string, all: string)
    requires !IsWordChar(c) && c != '(' && c != '"' && all != "" && all[0] == c && all[1..] == s
    ensures PrimaryText(all) == PrimaryText(s)
  {
    hide OrText, PhraseText, AfterClose;
    if IsSpace(c) {
      assert SkipSpace(all) == SkipSpace(s);
      PrimarySkips(all);
      PrimarySkips(s);
    } else {
      NoSpaceToSkip(all);
    }
  }

  lemma PrimarySkips(s: string)
    ensures PrimaryText(SkipSpace(s)) == PrimaryText(s)
  {
    hide OrText, PhraseText, AfterClose, SkipSpace;
    SkipSpaceTwice(s);
  }

  lemma UnaryStep(s: string)
    ensures var t := SkipSpace(s);
            UnaryText(s) ==
            if StartsWith(t, '-') then
              (var inner := PrimaryText(t[1..]);
               if inner.q.None? then inner else Parsed(Some(Not(inner.q.value)), inner.rest))
            else PrimaryText(t)
  {
    hide PrimaryText, SkipSpace;
  }

  // a '-' that only spaces precede is read as a sign, any other filler is skipped
  lemma LeadRead(lead: string, s: string)
    requires IsFiller(lead) && s != "" && !IsSpace(s[0]) && s[0] != '-'
    ensures UnaryText(lead + s) ==
            if HasDash(lead) then
              (var inner := PrimaryText(s);
               if inner.q.None? then inner else Parsed(Some(Not(inner.q.value)), inner.rest))
            else PrimaryText(s)
  {
    UnaryStep(lead + s);
    hide PrimaryText, SkipSpace, UnaryText, IsWordChar;
    SpacesBefore(lead, s);
    LeadSkipped(lead, s);
    var t := SkipSpace(lead + s);
    PrimarySkips(lead + s);
    if HasDash(lead) {
      var rest := SkipSpace(lead)[1..];
      assert IsFiller(rest) by { FillerRest(lead); }
      assert t[1..] == rest + s;
      LeadSkipped(rest, s);
    }
  }

  lemma {:induction false} SpacesBefore(lead: string, s: string)
    requires s == "" || !IsSpace(s[0])
    ensures SkipSpace(lead + s) == SkipSpace(lead) + s
  {
    if lead != "" {
      assert (lead + s)[1..] == lead[1..] + s && (lead + s)[0] == lead[0];
      if IsSpace(lead[0]) {
        SpacesBefore(lead[1..], s);
      }
    } else {
      assert lead + s == s;
      NoSpaceToSkip(s);
    }
  }

  lemma FillerRest(lead: string)
    requires IsFiller(lead)
    ensures IsFiller(SkipSpace(lead)) && (SkipSpace(lead) != "" ==> IsFiller(SkipSpace(lead)[1..]))
  {
    var t := SkipSpace(lead);
    assert t == lead[|lead| - |t|..];
  }

  // filler up to the end of the text gives nothing
  lemma FillerEnds(lead: string)
    requires IsFiller(lead)
    ensures UnaryText(lead) == Parsed(None, "")
  {
    hide SkipSpace;
    NothingRead(lead);
    var t := SkipSpace(lead);
    PrimarySkips(lead);
    FillerRest(lead);
    if StartsWith(t, '-') {
      NothingRead(t[1..]);
    }
  }

  lemma NothingRead(lead: string)
    requires IsFiller(lead)
    ensures PrimaryText(lead) == Parsed(None, "")
  {
    LeadSkipped(lead, "");
    assert lead + "" == lead;
    assert PrimaryText("") == Parsed(None, "");
  }

  // ---- words and quotes

  lemma {:induction false} RunOfWord(word: string, tail: string)
    requires (forall k :: 0 <= k < |word| ==> IsWordChar(word[k])) && StartsNoWord(tail)
    ensures RunLength(word + tail) == |word|
    ensures (word + tail)[..|word|] == word && (word + tail)[|word|..] == tail
  {
    if word == "" {
      assert word + tail == tail;
    } else {
      assert (word + tail)[1..] == word[1..] + tail;
      RunOfWord(word[1..], tail);
    }
  }

  lemma {:induction false} PhraseSkips(words: seq<string>, filler: string, s: string)
    requires IsQuoteFiller(filler)
    ensures PhraseText(words, filler + s) == PhraseText(words, s)
  {
    if filler == "" {
      assert filler + s == s;
    } else {
      assert (filler + s)[1..] == filler[1..] + s;
      PhraseSkips(words, filler[1..], s);
    }
  }

  lemma PhraseReadsWord(words: seq<string>, word: string, s: string)
    requires IsPlainWord(word) && StartsNoWord(s)
    ensures PhraseText(words, word + s) == PhraseText(words + [Fold(word)], s)
  {
    RunOfWord(word, s);
  }

  lemma PhraseCloses(words: seq<string>, closed: bool, tail: string)
    requires closed || tail == ""
    ensures PhraseText(words, CloseQuote(closed, tail)) == Parsed(PhraseOf(words), tail)
    ensures StartsNoWord(CloseQuote(closed, tail))
  {
    hide PhraseOf;
  }

  lemma {:induction false} PhraseParses(read: seq<string>, words: seq<QuotedWord>, closed: bool, tail: string)
    requires AreQuoted(words) && (closed || tail == "")
    ensures PhraseText(read, QuotedString(words, CloseQuote(closed, tail))) ==
            Parsed(PhraseOf(read + QuotedWords(words)), tail)
    decreases |words|
  {
    hide IsPlainWord, PhraseOf, PhraseText;
    PhraseCloses(read, closed, tail);
    if words == [] {
      assert read + QuotedWords(words) == read;
    } else {
      var others := QuotedString(words[1..], CloseQuote(closed, tail));
      QuotedGap(words, closed, tail);
      PhraseReadsWord(read, words[0].word, words[0].gap + others);
      PhraseSkips(read + [Fold(words[0].word)], words[0].gap, others);
      PhraseParses(read + [Fold(words[0].word)], words[1..], closed, tail);
      assert read + [Fold(words[0].word)] + QuotedWords(words[1..]) == read + QuotedWords(words);
    }
  }

  lemma QuotedGap(words: seq<QuotedWord>, closed: bool, tail: string)
    requires words != [] && AreQuoted(words) && (closed || tail == "")
    ensures StartsNoWord(words[0].gap + QuotedString(words[1..], CloseQuote(closed, tail)))
  {
    var gap := words[0].gap;
    if gap == "" {
      assert |words| == 1;
      assert gap + QuotedString(words[1..], CloseQuote(closed, tail)) == CloseQuote(closed, tail);
    } else {
      assert (gap + QuotedString(words[1..], CloseQuote(closed, tail)))[0] == gap[0];
    }
  }

  lemma QuotedWordsCount(words: seq<QuotedWord>)
    ensures |QuotedWords(words)| == |words|
  {
  }

  // ---- the parser reads each rule

  lemma HeadStarts(h: Head, tail: string)
    requires IsHead(h, tail)
    ensures var s := HeadString(h, tail);
            s != "" && (s[0] == '(' || s[0] == '"' || IsWordChar(s[0])) && !IsSpace(s[0]) && SkipSpace(s) == s
  {
    hide QueryString, QuotedString, IsQuery;
    match h
    case Bare(word) => assert (word + tail)[0] == word[0];
    case _ =>
  }

  // past a closing parenthesis, or not
  lemma ClosePassed(close: Close, rest: string, tail: string)
    requires IsClose(close, tail) && SkipSpace(rest) == SkipSpace(CloseString(close, tail))
    ensures SkipSpace(AfterClose(rest)) == SkipSpace(tail)
  {
    hide SkipSpace;
    TailsSkip([], None, rest, CloseString(close, tail));
    match close
    case Closed(spaces) =>
      SpacesSkipped(spaces, ")" + tail);
      NoSpaceToSkip(")" + tail);
      assert (")" + tail)[1..] == tail;
    case Unclosed => SkipSpaceTwice(tail);
  }

  lemma BareParses(word: string, tail: string)
    requires IsPlainWord(word) && StartsNoWord(tail)
    ensures PrimaryText(word + tail) == Parsed(Some(Word(Fold(word))), tail)
  {
    hide PrimaryText, IsWordChar, RunLength, Fold;
    RunOfWord(word, tail);
    assert (word + tail)[0] == word[0];
    WordReads(word + tail);
  }

  lemma WordReads(s: string)
    requires s != "" && IsWordChar(s[0])
    ensures PrimaryText(s) == Parsed(Some(Word(Fold(s[..RunLength(s)]))), s[RunLength(s)..])
  {
    hide OrText, PhraseText, AfterClose, RunLength, Fold;
    NoSpaceToSkip(s);
    hide SkipSpace;
    WordCharIs(s[0]);
  }

  lemma WordCharIs(c: char)
    requires IsWordChar(c)
    ensures c != '(' && c != '"' && !IsSpace(c)
  {
  }

  lemma QuotedParses(open: string, words: seq<QuotedWord>, closed: bool, tail: string)
    requires IsHead(Quoted(open, words, closed), tail)
    ensures PrimaryText(HeadString(Quoted(open, words, closed), tail)) ==
            Parsed(Some(HeadTree(Quoted(open, words, closed))), tail)
  {
    hide PrimaryText, PhraseText, QuotedString, QuotedWords;
    var body := QuotedString(words, CloseQuote(closed, tail));
    QuoteReads("\"" + (open + body), open + body);
    PhraseSkips([], open, body);
    PhraseParses([], words, closed, tail);
    assert [] + QuotedWords(words) == QuotedWords(words);
    QuotedWordsCount(words);
  }

  lemma {:induction false} HeadParses(h: Head, tail: string)
    requires IsHead(h, tail)
    ensures Reads(PrimaryText(HeadString(h, tail)), Some(HeadTree(h)), tail)
    decreases h
  {
    hide PrimaryText, OrText, QueryString, QueryTree, IsQuery, PhraseText, QuotedString, QuotedWords, SkipSpace,
         AfterClose;
    match h {
      case Group(query, close) =>
        var inner := QueryString(query, CloseString(close, tail));
        GroupReads("(" + inner, inner);
        QueryParses(query, CloseString(close, tail));
        ClosePassed(close, OrText(inner).rest, tail);
      case Quoted(open, words, closed) => QuotedParses(open, words, closed, tail);
      case Bare(word) => BareParses(word, tail);
    }
  }

  lemma {:induction false} UnaryParses(u: UnaryRule, tail: string, first: bool)
    requires IsUnary(u, tail, first)
    ensures Reads(UnaryText(UnaryString(u, tail)), Some(UnaryTree(u)), tail)
    decreases u
  {
    hide PrimaryText, UnaryText, HeadString, HeadTree, IsHead, SkipSpace, HasDash;
    HeadStarts(u.head, tail);
    LeadRead(u.lead, HeadString(u.head, tail));
    HeadParses(u.head, tail);
  }

  lemma {:induction false} MissParses(m: Miss, tail: string, first: bool)
    requires IsMiss(m, tail, first)
    ensures Reads(UnaryText(MissString(m, tail)), None, tail)
    decreases m
  {
    hide UnaryText, PrimaryText, OrText, PhraseText, SkipSpace, AfterClose, HasDash, MissesString, AreMisses;
    var s := HollowString(m.hollow, tail);
    match m.hollow {
      case End =>
        assert m.lead + "" == m.lead;
        FillerEnds(m.lead);
      case EmptyQuote(filler, closed) =>
        LeadRead(m.lead, s);
        PhraseSkips([], filler, CloseQuote(closed, tail));
        PhraseCloses([], closed, tail);
        QuoteReads(s, filler + CloseQuote(closed, tail));
      case EmptyGroup(misses, close) =>
        var inner := MissesString(misses, CloseString(close, tail));
        LeadRead(m.lead, s);
        MissesParse(misses, CloseString(close, tail));
        ClosePassed(close, OrText(inner).rest, tail);
        GroupReads(s, inner);
    }
  }

  lemma QuoteReads(s: string, body: string)
    requires s == "\"" + body
    ensures PrimaryText(s) == PhraseText([], body)
  {
    hide PhraseText;
    NoSpaceToSkip(s);
    assert s[1..] == body;
  }

  lemma GroupReads(s: string, body: string)
    requires s == "(" + body
    ensures PrimaryText(s) == Parsed(OrText(body).q, AfterClose(OrText(body).rest))
  {
    hide OrText, AfterClose;
    NoSpaceToSkip(s);
    assert s[1..] == body;
  }

  lemma {:induction false} MissesParse(ms: Misses, tail: string)
    requires AreMisses(ms, tail)
    ensures Reads(OrText(MissesString(ms, tail)), None, tail)
    decreases ms
  {
    hide UnaryText, SkipSpace, OrTail, AndText, OrText;
    match ms {
      case One(miss) =>
        MissParses(miss, tail, true);
        FirstMisses(MissString(miss, tail), tail);
        OrStops(None, tail);
      case Two(miss, before, second) =>
        var others := MissString(second, tail);
        MissParses(miss, before + ("|" + others), true);
        FirstMisses(MissString(miss, before + ("|" + others)), before + ("|" + others));
        MissParses(second, tail, true);
        BarThen(None, before, others);
        AndMisses(others);
    }
  }

  // an AND whose first operand gives nothing
  lemma AndMisses(s: string)
    requires UnaryText(s).q.None?
    ensures AndText(s) == UnaryText(s)
  {
    hide UnaryText, SkipSpace, AndTail;
    UnarySkips(s);
  }

  lemma FirstMisses(s: string, tail: string)
    requires Reads(UnaryText(s), None, tail)
    ensures OrText(s) == OrTail(None, tail)
  {
    hide UnaryText, SkipSpace, AndText;
    AndMisses(s);
    TailsSkip([], None, UnaryText(s).rest, tail);
  }

  lemma OrStops(left: Option<Query>, tail: string)
    requires !NextIs(tail, '|')
    ensures Reads(OrTail(left, tail), left, tail)
  {
    hide AndText, SkipSpace;
    SkipSpaceTwice(tail);
  }

  // what an OR does at a '|'
  lemma BarThen(left: Option<Query>, before: string, s: string)
    requires AreSpaces(before)
    ensures OrTail(left, before + ("|" + s)) ==
            var right := AndText(s);
            if right.q.None? then Parsed(left, right.rest)
            else OrTail(Some(JoinOr(left, right.q.value)), right.rest)
    ensures NextIs(before + ("|" + s), '|') && EndsAnd(before + ("|" + s))
  {
    hide AndText, SkipSpace, JoinOr;
    SpacesSkipped(before, "|" + s);
    NoSpaceToSkip("|" + s);
    assert ("|" + s)[1..] == s;
    AndTextSkips(s);
  }

  // ---- rows

  lemma AndStops(kids: seq<Query>, tail: string)
    requires kids != [] && EndsAnd(tail)
    ensures Reads(AndTail(kids, tail), Some(WrapAnd(kids)), tail)
  {
    hide UnaryText, SkipSpace, WrapAnd;
    SkipSpaceTwice(tail);
  }

  // one more operand, or one that gives nothing
  lemma AndGoesOn(kids: seq<Query>, s: string)
    requires kids != [] && !EndsAnd(s)
    ensures var next := UnaryText(s);
            AndTail(kids, s) ==
            if next.q.None? then Parsed(Some(WrapAnd(kids)), next.rest) else AndTail(kids + [next.q.value], next.rest)
  {
    hide UnaryText, SkipSpace, WrapAnd;
    UnarySkips(s);
  }

  lemma GoingOn(lead: string, s: string)
    requires IsFiller(lead) && GoesOn(lead)
    requires (s != "" && !IsSpace(s[0]) && s[0] != '|' && s[0] != ')') || (s == "" && SkipSpace(lead) != "")
    ensures !EndsAnd(lead + s)
  {
    hide SkipSpace;
    SpacesBefore(lead, s);
    assert SkipSpace(lead) != "" ==> (SkipSpace(lead) + s)[0] == SkipSpace(lead)[0];
    assert SkipSpace(lead) == "" ==> SkipSpace(lead) + s == s;
  }

  lemma UnaryGoesOn(u: UnaryRule, tail: string)
    requires IsUnary(u, tail, false)
    ensures !EndsAnd(UnaryString(u, tail))
  {
    hide HeadString, IsHead, GoesOn, EndsAnd;
    HeadStarts(u.head, tail);
    GoingOn(u.lead, HeadString(u.head, tail));
  }

  lemma MissGoesOn(m: Miss, tail: string)
    requires IsMiss(m, tail, false)
    ensures !EndsAnd(MissString(m, tail))
  {
    hide GoesOn, EndsAnd, MissesString, AreMisses;
    GoingOn(m.lead, HollowString(m.hollow, tail));
  }

  // what an AND leaves after an operand
  function RestOfAnd(a: AndRule, tail: string): string {
    match a
    case Single(_) => tail
    case Conjunction(_, others) => AndString(others, tail)
    case Cut(_, miss) => MissString(miss, tail)
  }

  lemma {:induction false} RestParses(kids: seq<Query>, a: AndRule, tail: string, first: bool)
    requires kids != [] && IsAnd(a, tail, first)
    ensures Reads(AndTail(kids, RestOfAnd(a, tail)),
                  Some(WrapAnd(kids + if a.Conjunction? then AndTrees(a.others) else [])), tail)
    decreases a, 0
  {
    hide UnaryText, UnaryString, MissString, AndTail, AndTrees, IsUnary, IsMiss, SkipSpace, WrapAnd, EndsAnd;
    match a {
      case Single(_) =>
        AndStops(kids, tail);
        assert kids + [] == kids;
      case Conjunction(_, others) => RowParses(kids, others, tail);
      case Cut(_, miss) =>
        MissGoesOn(miss, tail);
        MissParses(miss, tail, false);
        AndGoesOn(kids, MissString(miss, tail));
        assert kids + [] == kids;
    }
  }

  lemma AndParts(a: AndRule, tail: string, first: bool)
    requires IsAnd(a, tail, first)
    ensures IsUnary(a.unary, RestOfAnd(a, tail), first)
    ensures AndString(a, tail) == UnaryString(a.unary, RestOfAnd(a, tail))
    ensures AndTrees(a) == [UnaryTree(a.unary)] + if a.Conjunction? then AndTrees(a.others) else []
  {
    hide UnaryString, MissString, IsUnary, IsMiss, UnaryTree;
  }

  lemma {:induction false} RowParses(kids: seq<Query>, a: AndRule, tail: string)
    requires kids != [] && IsAnd(a, tail, false)
    ensures Reads(AndTail(kids, AndString(a, tail)), Some(WrapAnd(kids + AndTrees(a))), tail)
    decreases a, 1
  {
    hide UnaryText, UnaryString, UnaryTree, AndTail, AndTrees, AndString, IsUnary, IsAnd, SkipSpace, WrapAnd, EndsAnd,
         RestOfAnd;
    AndParts(a, tail, false);
    var kid, rest := UnaryTree(a.unary), RestOfAnd(a, tail);
    UnaryGoesOn(a.unary, rest);
    UnaryParses(a.unary, rest, false);
    AndGoesOn(kids, AndString(a, tail));
    TailsSkip(kids + [kid], None, UnaryText(AndString(a, tail)).rest, rest);
    RestParses(kids + [kid], a, tail, false);
    var others := if a.Conjunction? then AndTrees(a.others) else [];
    assert kids + [kid] + others == kids + AndTrees(a);
  }

  lemma {:induction false} AndParses(a: AndRule, tail: string)
    requires IsAnd(a, tail, true)
    ensures Reads(AndText(AndString(a, tail)), Some(AndTree(a)), tail)
    decreases a, 2
  {
    hide UnaryText, UnaryString, UnaryTree, AndTail, AndString, AndTrees, IsUnary, IsAnd, SkipSpace, RestOfAnd;
    AndParts(a, tail, true);
    var s, kid, rest := AndString(a, tail), UnaryTree(a.unary), RestOfAnd(a, tail);
    UnaryParses(a.unary, rest, true);
    UnarySkips(s);
    TailsSkip([kid], None, UnaryText(s).rest, rest);
    RestParses([kid], a, tail, true);
  }

  // ---- alternatives

  // joining operands one by one
  function JoinedOr(left: Query, trees: seq<Query>): Query
    decreases |trees|
  {
    if trees == [] then left else JoinedOr(JoinOr(Some(left), trees[0]), trees[1..])
  }

  lemma {:induction false} JoinedOrIs(left: Query, trees: seq<Query>)
    requires trees != []
    ensures JoinedOr(left, trees) == if left.Or? then Or(left.kids + trees) else Or([left] + trees)
    decreases |trees|
  {
    var joined := JoinOr(Some(left), trees[0]);
    if |trees| == 1 {
      assert trees == [trees[0]] && trees[1..] == [];
    } else {
      JoinedOrIs(joined, trees[1..]);
      assert joined.kids + trees[1..] == (if left.Or? then left.kids else [left]) + trees;
    }
  }

  // what an OR leaves after an operand
  function RestOfOr(o: OrRule, tail: string): string {
    match o
    case Operand(_) => tail
    case Alternative(_, before, others) => before + ("|" + OrString(others, tail))
    case Dangling(_, before, miss) => before + ("|" + MissString(miss, tail))
  }

  lemma OrParts(o: OrRule, tail: string)
    requires IsOr(o, tail)
    ensures IsAnd(o.operand, RestOfOr(o, tail), true)
    ensures OrString(o, tail) == AndString(o.operand, RestOfOr(o, tail))
    ensures OrTrees(o) == [AndTree(o.operand)] + if o.Alternative? then OrTrees(o.others) else []
    ensures OrTrees(o)[1..] == if o.Alternative? then OrTrees(o.others) else []
  {
    hide AndString, MissString, IsAnd, IsMiss, AndTree;
  }

  // the operands after the first, joined to what is there
  lemma {:induction false} OperandsParse(left: Query, o: OrRule, tail: string)
    requires IsOr(o, tail)
    ensures Reads(OrTail(Some(left), RestOfOr(o, tail)),
                  Some(JoinedOr(left, if o.Alternative? then OrTrees(o.others) else [])), tail)
    decreases o, 0
  {
    hide AndText, AndString, AndTree, MissString, OrString, OrTrees, IsAnd, IsMiss, SkipSpace, OrTail, JoinOr;
    match o {
      case Operand(_) => OrStops(Some(left), tail);
      case Alternative(_, before, others) =>
        BarThen(Some(left), before, OrString(others, tail));
        OrParts(others, tail);
        AndParses(others.operand, RestOfOr(others, tail));
        var joined := JoinOr(Some(left), AndTree(others.operand));
        TailsSkip([], Some(joined), AndText(OrString(others, tail)).rest, RestOfOr(others, tail));
        OperandsParse(joined, others, tail);
      case Dangling(_, before, miss) =>
        BarThen(Some(left), before, MissString(miss, tail));
        MissParses(miss, tail, true);
        AndMisses(MissString(miss, tail));
    }
  }

  lemma OrTreeIs(o: OrRule)
    ensures OrTree(o) == JoinedOr(OrTrees(o)[0], OrTrees(o)[1..])
  {
    hide OrTrees;
    var trees := OrTrees(o);
    if |trees| > 1 {
      JoinedOrIs(trees[0], trees[1..]);
      assert [trees[0]] + trees[1..] == trees;
    }
  }

  lemma {:induction false} OrParses(o: OrRule, tail: string)
    requires IsOr(o, tail)
    ensures Reads(OrText(OrString(o, tail)), Some(OrTree(o)), tail)
    decreases o, 1
  {
    hide AndText, AndTree, OrString, OrTrees, OrTree, IsAnd, IsOr, SkipSpace, OrTail, RestOfOr;
    OrParts(o, tail);
    OrTreeIs(o);
    AndParses(o.operand, RestOfOr(o, tail));
    TailsSkip([], Some(AndTree(o.operand)), AndText(OrString(o, tail)).rest, RestOfOr(o, tail));
    OperandsParse(AndTree(o.operand), o, tail);
  }

  lemma {:induction false} QueryParses(q: QueryRule, tail: string)
    requires IsQuery(q, tail)
    ensures Reads(OrText(QueryString(q, tail)), Some(QueryTree(q)), tail)
    decreases q
  {
    hide OrText, AndText, OrString, OrTree, MissString, IsOr, IsMiss, SkipSpace, OrTail;
    match q {
      case Whole(query) => OrParses(query, tail);
      case Retried(miss, before, query) =>
        var others := OrString(query, tail);
        MissParses(miss, before + ("|" + others), true);
        FirstMisses(MissString(miss, before + ("|" + others)), before + ("|" + others));
        BarThen(None, before, others);
        OrParses(query, tail);
        SomeOperand(query, tail);
    }
  }

  // an OR is its first AND and what follows, after a '|' as well
  lemma SomeOperand(o: OrRule, tail: string)
    requires IsOr(o, tail)
    ensures var s := OrString(o, tail);
            AndText(s).q.Some? && OrText(s) == OrTail(Some(JoinOr(None, AndText(s).q.value)), AndText(s).rest)
  {
    hide AndText, AndTree, OrString, IsAnd, IsOr, SkipSpace, OrTail, RestOfOr;
    OrParts(o, tail);
    AndParses(o.operand, RestOfOr(o, tail));
  }

  // completeness: the text of a derivation parses to its tree, and what is left over, which the
  // parser ignores, is its tail
  lemma DerivationParses(q: QueryRule, tail: string)
    requires IsQuery(q, tail)
    ensures RootText(QueryString(q, tail)).q == Some(QueryTree(q))
    ensures SkipSpace(RootText(QueryString(q, tail)).rest) == SkipSpace(tail)
  {
    hide OrText, QueryString, QueryTree, IsQuery, SkipSpace;
    OrTextSkips(QueryString(q, tail));
    QueryParses(q, tail);
  }

  // and a text that comes to nothing has no tree
  lemma MissesHaveNoTree(ms: Misses, tail: string)
    requires AreMisses(ms, tail)
    ensures RootText(MissesString(ms, tail)).q.None?
  {
    hide OrText, MissesString, AreMisses, SkipSpace;
    OrTextSkips(MissesString(ms, tail));
    MissesParse(ms, tail);
  }
}
