/** Every text has a derivation, so the grammar says what the parser makes of any text at all. */
module Derivations {
  import opened Wrappers
  import opened Text
  import opened Queries
  import opened Parsing
  import opened Grammar

  // a rule that gives a tree, or one that comes to nothing
  datatype Derived<R, M> = Made(rule: R) | Missed(miss: M)

  // ---- the pieces of a text

  predicate StartsHead(s: string) { s != "" && (s[0] == '(' || s[0] == '"' || IsWordChar(s[0])) }

  lemma {:induction false} SplitLead(s: string) returns (lead: string, rest: string)
    ensures s == lead + rest && IsFiller(lead) && (rest == "" || StartsHead(rest))
  {
    if s == "" || StartsHead(s) {
      lead, rest := "", s;
    } else {
      lead, rest := SplitLead(s[1..]);
      lead := [s[0]] + lead;
    }
  }

  lemma SkipStep(s: string)
    ensures SkipSpace(s) == if s != "" && IsSpace(s[0]) then SkipSpace(s[1..]) else s
  {
    hide IsSpace;
  }

  lemma {:induction false} SplitSpaces(s: string) returns (spaces: string)
    ensures s == spaces + SkipSpace(s) && AreSpaces(spaces)
  {
    SkipStep(s);
    hide SkipSpace;
    if s == "" || !IsSpace(s[0]) {
      spaces := "";
    } else {
      var others := SplitSpaces(s[1..]);
      spaces := [s[0]] + others;
      assert s == [s[0]] + s[1..];
      assert [s[0]] + (others + SkipSpace(s[1..])) == spaces + SkipSpace(s[1..]);
    }
  }

  // the spaces before a character, and what follows it
  lemma SplitAt(s: string, c: char) returns (before: string, rest: string)
    requires NextIs(s, c)
    ensures s == before + ([c] + rest) && AreSpaces(before) && |rest| < |s|
  {
    hide SkipSpace;
    before := SplitSpaces(s);
    rest := SkipSpace(s)[1..];
    assert SkipSpace(s) == [c] + rest;
  }

  lemma {:induction false} SplitFiller(s: string) returns (filler: string, rest: string)
    ensures s == filler + rest && IsQuoteFiller(filler)
    ensures rest == "" || rest[0] == '"' || IsWordChar(rest[0])
    ensures s != "" && !IsWordChar(s[0]) && s[0] != '"' ==> filler != ""
  {
    if s == "" || s[0] == '"' || IsWordChar(s[0]) {
      filler, rest := "", s;
    } else {
      filler, rest := SplitFiller(s[1..]);
      filler := [s[0]] + filler;
    }
  }

  lemma SplitWord(s: string) returns (word: string, rest: string)
    requires s != "" && IsWordChar(s[0])
    ensures s == word + rest && IsPlainWord(word) && StartsNoWord(rest) && |rest| < |s|
  {
    hide IsWordChar;
    var n := RunLength(s);
    RunGoesOn(s);
    word, rest := s[..n], s[n..];
  }

  // the words of a quote, from a word or its end on
  lemma {:induction false} QuotedDerive(s: string) returns (words: seq<QuotedWord>, closed: bool, tail: string)
    requires s == "" || s[0] == '"' || IsWordChar(s[0])
    ensures s == QuotedString(words, CloseQuote(closed, tail)) && AreQuoted(words) && (closed || tail == "")
    ensures |tail| <= |s|
    decreases |s|
  {
    hide IsWordChar, IsPlainWord, IsQuoteFiller;
    if s == "" {
      words, closed, tail := [], false, "";
    } else if s[0] == '"' {
      words, closed, tail := [], true, s[1..];
      assert s == "\"" + tail;
    } else {
      var word, rest := SplitWord(s);
      var gap, more := SplitFiller(rest);
      var others;
      others, closed, tail := QuotedDerive(more);
      words := [QuotedWord(word, gap)] + others;
      assert words[1..] == others;
      if others != [] && gap == "" {
        assert rest == more;
        GapNeeded(more, others, closed, tail);
      }
    }
  }

  // no gap, no further word
  lemma GapNeeded(s: string, words: seq<QuotedWord>, closed: bool, tail: string)
    requires s == QuotedString(words, CloseQuote(closed, tail)) && words != [] && AreQuoted(words)
    ensures !StartsNoWord(s)
  {
    assert s[0] == words[0].word[0];
  }

  lemma CloseDerives(s: string) returns (close: Close, tail: string)
    ensures s == CloseString(close, tail) && IsClose(close, tail) && |tail| <= |s|
  {
    hide SkipSpace;
    if NextIs(s, ')') {
      var spaces, rest := SplitAt(s, ')');
      close, tail := Closed(spaces), rest;
      assert [')'] + rest == ")" + rest;
    } else {
      close, tail := Unclosed, s;
    }
  }

  // ---- operands

  ghost predicate UnaryIs(d: Derived<UnaryRule, Miss>, s: string, tail: string, first: bool) {
    match d
    case Made(u) => s == UnaryString(u, tail) && IsUnary(u, tail, first) && |tail| < |s|
    case Missed(m) => s == MissString(m, tail) && IsMiss(m, tail, first) && |tail| <= |s|
  }

  ghost predicate QueryIs(d: Derived<QueryRule, Misses>, s: string, tail: string) {
    match d
    case Made(q) => s == QueryString(q, tail) && IsQuery(q, tail) && |tail| < |s|
    case Missed(ms) => s == MissesString(ms, tail) && AreMisses(ms, tail) && |tail| <= |s|
  }

  lemma {:induction false} UnaryDerives(s: string, first: bool) returns (d: Derived<UnaryRule, Miss>, tail: string)
    requires first || !EndsAnd(s)
    ensures UnaryIs(d, s, tail, first)
    decreases |s|, 1
  {
    hide IsWordChar, IsFiller, IsHead, IsHollow, HeadString, HollowString, GoesOn, EndsAnd, SkipSpace;
    var lead, rest := SplitLead(s);
    LeadGoesOn(lead, rest, first);
    if rest == "" {
      d, tail := Missed(Miss(lead, End)), "";
      EndIs();
    } else {
      var head;
      head, tail := HeadDerives(rest);
      d := match head case Made(h) => Made(Unary(lead, h)) case Missed(h) => Missed(Miss(lead, h));
    }
  }

  lemma EndIs()
    ensures HollowString(End, "") == "" && IsHollow(End, "")
  {
  }

  lemma LeadGoesOn(lead: string, rest: string, first: bool)
    requires IsFiller(lead) && (rest == "" || StartsHead(rest))
    requires first || !EndsAnd(lead + rest)
    ensures first || (GoesOn(lead) && (rest == "" ==> SkipSpace(lead) != ""))
  {
    hide SkipSpace, IsFiller;
    assert rest != "" ==> !IsSpace(rest[0]);
    hide IsWordChar;
    SpacesBefore(lead, rest);
    assert SkipSpace(lead) != "" ==> (SkipSpace(lead) + rest)[0] == SkipSpace(lead)[0];
  }

  ghost predicate HeadIs(d: Derived<Head, Hollow>, s: string, tail: string) {
    match d
    case Made(h) => s == HeadString(h, tail) && IsHead(h, tail) && |tail| < |s|
    case Missed(h) => s == HollowString(h, tail) && IsHollow(h, tail) && !h.End? && |tail| < |s|
  }

  lemma {:induction false} HeadDerives(s: string) returns (d: Derived<Head, Hollow>, tail: string)
    requires StartsHead(s)
    ensures HeadIs(d, s, tail)
    decreases |s|, 0
  {
    hide IsWordChar, HeadIs;
    if s[0] == '(' {
      var inner, rest := QueryDerives(s[1..]);
      var close;
      close, tail := CloseDerives(rest);
      d := match inner case Made(q) => Made(Group(q, close)) case Missed(ms) => Missed(EmptyGroup(ms, close));
      GroupIs(s, inner, rest, close, tail);
    } else if s[0] == '"' {
      var filler, body := SplitFiller(s[1..]);
      var words, closed;
      words, closed, tail := QuotedDerive(body);
      d := if words == [] then Missed(EmptyQuote(filler, closed)) else Made(Quoted(filler, words, closed));
      QuoteIs(s, filler, body, words, closed, tail);
    } else {
      var word;
      word, tail := SplitWord(s);
      d := Made(Bare(word));
      BareIs(s, word, tail);
    }
  }

  lemma BareIs(s: string, word: string, tail: string)
    requires s == word + tail && IsPlainWord(word) && StartsNoWord(tail)
    ensures HeadIs(Made(Bare(word)), s, tail)
  {
    hide IsWordChar;
  }

  lemma QuoteIs(s: string, filler: string, body: string, words: seq<QuotedWord>, closed: bool, tail: string)
    requires s != "" && s[0] == '"' && s[1..] == filler + body && IsQuoteFiller(filler)
    requires body == QuotedString(words, CloseQuote(closed, tail)) && AreQuoted(words) && (closed || tail == "")
    requires |tail| <= |body|
    ensures HeadIs(if words == [] then Missed(EmptyQuote(filler, closed)) else Made(Quoted(filler, words, closed)),
                   s, tail)
  {
    hide AreQuoted, IsQuoteFiller;
    assert s == "\"" + s[1..];
  }

  lemma GroupIs(s: string, inner: Derived<QueryRule, Misses>, rest: string, close: Close, tail: string)
    requires s != "" && s[0] == '(' && QueryIs(inner, s[1..], rest)
    requires rest == CloseString(close, tail) && IsClose(close, tail) && |tail| <= |rest|
    ensures HeadIs(match inner case Made(q) => Made(Group(q, close)) case Missed(ms) => Missed(EmptyGroup(ms, close)),
                   s, tail)
  {
    hide IsQuery, AreMisses, QueryString, MissesString, IsClose, CloseString;
    assert s == "(" + s[1..];
  }

  // ---- rows

  ghost predicate AndIs(d: Derived<AndRule, Miss>, s: string, tail: string, first: bool) {
    match d
    case Made(a) => s == AndString(a, tail) && IsAnd(a, tail, first) && |tail| < |s|
    case Missed(m) => s == MissString(m, tail) && IsMiss(m, tail, first) && |tail| <= |s|
  }

  lemma {:induction false} AndDerives(s: string, first: bool) returns (d: Derived<AndRule, Miss>, tail: string)
    requires first || !EndsAnd(s)
    ensures AndIs(d, s, tail, first)
    decreases |s|, 2
  {
    hide IsUnary, IsMiss, UnaryString, MissString, EndsAnd;
    var unary, rest := UnaryDerives(s, first);
    match unary {
      case Missed(m) => d, tail := Missed(m), rest;
      case Made(u) =>
        if EndsAnd(rest) {
          d, tail := Made(Single(u)), rest;
        } else {
          var others;
          others, tail := AndDerives(rest, false);
          d := match others case Made(a) => Made(Conjunction(u, a)) case Missed(m) => Made(Cut(u, m));
        }
    }
  }

  // ---- alternatives

  ghost predicate OrIs(d: Derived<OrRule, Miss>, s: string, tail: string) {
    match d
    case Made(o) => s == OrString(o, tail) && IsOr(o, tail) && |tail| < |s|
    case Missed(m) => s == MissString(m, tail) && IsMiss(m, tail, true) && |tail| <= |s|
  }

  lemma {:induction false} OrDerives(s: string) returns (d: Derived<OrRule, Miss>, tail: string)
    ensures OrIs(d, s, tail)
    decreases |s|, 3
  {
    hide IsAnd, IsMiss, AndString, MissString, NextIs, AreSpaces;
    var operand, rest := AndDerives(s, true);
    match operand {
      case Missed(m) => d, tail := Missed(m), rest;
      case Made(a) =>
        if NextIs(rest, '|') {
          var before, after := SplitAt(rest, '|');
          assert ['|'] + after == "|" + after;
          var others;
          others, tail := OrDerives(after);
          d := match others
               case Made(o) => Made(Alternative(a, before, o))
               case Missed(m) => Made(Dangling(a, before, m));
        } else {
          d, tail := Made(Operand(a)), rest;
        }
    }
  }

  lemma {:induction false} QueryDerives(s: string) returns (d: Derived<QueryRule, Misses>, tail: string)
    ensures QueryIs(d, s, tail)
    decreases |s|, 4
  {
    hide IsOr, IsMiss, OrString, MissString, NextIs, AreSpaces;
    var operand, rest := OrDerives(s);
    match operand {
      case Made(o) => d, tail := Made(Whole(o)), rest;
      case Missed(m) =>
        if NextIs(rest, '|') {
          var before, after := SplitAt(rest, '|');
          assert ['|'] + after == "|" + after;
          var others;
          others, tail := OrDerives(after);
          d := match others
               case Made(o) => Made(Retried(m, before, o))
               case Missed(second) => Missed(Two(m, before, second));
        } else {
          d, tail := Missed(One(m)), rest;
        }
    }
  }

  // every text is that of a derivation, with its tail, or of one that comes to nothing; and the
  // tree of the text is that of the derivation
  lemma EveryTextDerives(raw: string) returns (d: Derived<QueryRule, Misses>, tail: string)
    ensures QueryIs(d, raw, tail)
    ensures RootText(raw).q == match d case Made(q) => Some(QueryTree(q)) case Missed(_) => None
  {
    hide RootText, QueryTree, IsQuery, AreMisses, QueryString, MissesString, SkipSpace;
    d, tail := QueryDerives(raw);
    match d {
      case Made(q) => DerivationParses(q, tail);
      case Missed(ms) => MissesHaveNoTree(ms, tail);
    }
  }

  // so all derivations of a text have one tree
  lemma OneTree(p: QueryRule, s: string, q: QueryRule, t: string)
    requires IsQuery(p, s) && IsQuery(q, t) && QueryString(p, s) == QueryString(q, t)
    ensures QueryTree(p) == QueryTree(q)
  {
    hide RootText, QueryTree, IsQuery, QueryString, SkipSpace;
    DerivationParses(p, s);
    DerivationParses(q, t);
  }

  // ---- what plain texts come to

  lemma BareUnary(lead: string, w: string, tail: string, first: bool)
    requires IsPlainWord(w) && StartsNoWord(tail) && IsFiller(lead) && (first || GoesOn(lead))
    ensures IsUnary(Unary(lead, Bare(w)), tail, first)
    ensures UnaryString(Unary(lead, Bare(w)), tail) == lead + (w + tail)
    ensures UnaryTree(Unary(lead, Bare(w))) == if HasDash(lead) then Not(Word(Fold(w))) else Word(Fold(w))
  {
    hide IsPlainWord, StartsNoWord, IsFiller, GoesOn, HasDash, Fold;
    assert IsHead(Bare(w), tail);
    assert HeadString(Bare(w), tail) == w + tail;
    assert HeadTree(Bare(w)) == Word(Fold(w));
  }

  lemma LastInRow(u: UnaryRule, tail: string, first: bool)
    requires IsUnary(u, tail, first) && EndsAnd(tail)
    ensures IsAnd(Single(u), tail, first)
    ensures AndString(Single(u), tail) == UnaryString(u, tail)
    ensures AndTrees(Single(u)) == [UnaryTree(u)] && AndTree(Single(u)) == UnaryTree(u)
  {
    hide IsUnary, EndsAnd, UnaryString, UnaryTree;
  }

  lemma PairInRow(u: UnaryRule, v: UnaryRule, tail: string)
    requires IsUnary(u, UnaryString(v, tail), true) && IsUnary(v, tail, false) && EndsAnd(tail)
    ensures IsAnd(Conjunction(u, Single(v)), tail, true)
    ensures AndString(Conjunction(u, Single(v)), tail) == UnaryString(u, UnaryString(v, tail))
    ensures AndTree(Conjunction(u, Single(v))) == And([UnaryTree(u), UnaryTree(v)])
  {
    hide IsUnary, EndsAnd, UnaryString, UnaryTree;
    LastInRow(v, tail, false);
    assert AndTrees(Conjunction(u, Single(v))) == [UnaryTree(u)] + AndTrees(Single(v));
  }

  lemma LeadBeforeWord(lead: string, w: string, tail: string)
    requires lead != "" && IsFiller(lead)
    ensures StartsNoWord(lead + (w + tail))
  {
    assert (lead + (w + tail))[0] == lead[0];
  }

  lemma LeadIsEmpty()
    ensures IsFiller("") && !HasDash("") && GoesOn("") && SkipSpace("") == "" && AreSpaces("")
    ensures EndsAnd("") && StartsNoWord("") && !NextIs("", '|')
  {
  }

  lemma BareRow(v: string, lead: string, w: string, tail: string)
    requires IsPlainWord(v) && IsPlainWord(w) && StartsNoWord(tail) && EndsAnd(tail)
    requires lead != "" && IsFiller(lead) && GoesOn(lead)
    ensures IsAnd(Conjunction(Unary("", Bare(v)), Single(Unary(lead, Bare(w)))), tail, true)
    ensures AndString(Conjunction(Unary("", Bare(v)), Single(Unary(lead, Bare(w)))), tail) == v + lead + w + tail
    ensures AndTree(Conjunction(Unary("", Bare(v)), Single(Unary(lead, Bare(w))))) ==
            And([Word(Fold(v)), if HasDash(lead) then Not(Word(Fold(w))) else Word(Fold(w))])
  {
    hide IsPlainWord, IsFiller, GoesOn, EndsAnd, HasDash, Fold, AndString, AndTree, IsAnd, UnaryString, UnaryTree,
         IsUnary, StartsNoWord;
    LeadBeforeWord(lead, w, tail);
    LeadIsEmpty();
    BareUnary(lead, w, tail, false);
    BareUnary("", v, lead + (w + tail), true);
    PairInRow(Unary("", Bare(v)), Unary(lead, Bare(w)), tail);
    assert "" + (v + (lead + (w + tail))) == v + lead + w + tail;
  }

  // a text of one row
  lemma RowIsRead(a: AndRule)
    requires IsAnd(a, "", true)
    ensures RootText(AndString(a, "")).q == Some(AndTree(a))
  {
    hide RootText, AndTree, AndString, IsAnd;
    LeadIsEmpty();
    var o := Operand(a);
    assert IsOr(o, "") && OrString(o, "") == AndString(a, "");
    assert OrTrees(o) == [AndTree(a)];
    WholeIsRead(o);
  }

  // a text of alternatives
  lemma WholeIsRead(o: OrRule)
    requires IsOr(o, "")
    ensures RootText(OrString(o, "")).q == Some(OrTree(o))
  {
    hide RootText, OrTree, OrString, IsOr;
    DerivationParses(Whole(o), "");
    assert QueryString(Whole(o), "") == OrString(o, "");
    assert QueryTree(Whole(o)) == OrTree(o);
    assert IsQuery(Whole(o), "");
  }

  // two rows, and nothing between them but a '|'
  lemma TwoRows(a: AndRule, b: AndRule, tail: string)
    requires IsAnd(a, "|" + AndString(b, tail), true) && IsAnd(b, tail, true) && !NextIs(tail, '|')
    requires !AndTree(a).Or?
    ensures IsOr(Alternative(a, "", Operand(b)), tail)
    ensures OrString(Alternative(a, "", Operand(b)), tail) == AndString(a, "|" + AndString(b, tail))
    ensures OrTree(Alternative(a, "", Operand(b))) == Or([AndTree(a), AndTree(b)])
  {
    hide AndTree, AndString, IsAnd, NextIs;
    LeadIsEmpty();
    assert OrString(Operand(b), tail) == AndString(b, tail);
    assert "" + ("|" + AndString(b, tail)) == "|" + AndString(b, tail);
    assert IsOr(Operand(b), tail);
    assert OrTrees(Operand(b)) == [AndTree(b)];
    assert OrTrees(Alternative(a, "", Operand(b))) == [AndTree(a), AndTree(b)];
  }

  // two words with spaces or any stray characters between them are an AND; a '-' negates the
  // second one if only spaces stand before the '-'
  lemma WordsInRow(v: string, lead: string, w: string)
    requires IsPlainWord(v) && IsPlainWord(w)
    requires lead != "" && IsFiller(lead) && GoesOn(lead)
    ensures RootText(v + lead + w).q ==
            Some(And([Word(Fold(v)), if HasDash(lead) then Not(Word(Fold(w))) else Word(Fold(w))]))
  {
    hide IsPlainWord, IsFiller, GoesOn, HasDash, RootText, AndTree, AndString, IsAnd, Fold, EndsAnd, StartsNoWord;
    LeadIsEmpty();
    BareRow(v, lead, w, "");
    RowIsRead(Conjunction(Unary("", Bare(v)), Single(Unary(lead, Bare(w)))));
    assert v + lead + w + "" == v + lead + w;
  }

  // past one space
  lemma PastSpace(s: string)
    requires s == "" || !IsSpace(s[0])
    ensures SkipSpace(s) == s && SkipSpace(" " + s) == s
  {
    assert (" " + s)[1..] == s;
  }

  lemma LeadsInRow()
    ensures IsFiller(" ") && GoesOn(" ") && !HasDash(" ")
    ensures IsFiller(".") && GoesOn(".") && !HasDash(".")
    ensures IsFiller(".-") && GoesOn(".-") && !HasDash(".-")
    ensures IsFiller(" -") && GoesOn(" -") && HasDash(" -")
  {
    PastSpace("");
    PastSpace("-");
    PastSpace(".");
    PastSpace(".-");
    hide SkipSpace;
    assert " " + "" == " " && " " + "-" == " -";
  }

  lemma PlainTexts(v: string, w: string)
    requires IsPlainWord(v) && IsPlainWord(w)
    ensures RootText(v + " " + w).q == Some(And([Word(Fold(v)), Word(Fold(w))]))
    ensures RootText(v + "." + w).q == Some(And([Word(Fold(v)), Word(Fold(w))]))
    ensures RootText(v + ".-" + w).q == Some(And([Word(Fold(v)), Word(Fold(w))]))
    ensures RootText(v + " -" + w).q == Some(And([Word(Fold(v)), Not(Word(Fold(w)))]))
  {
    hide IsPlainWord, IsFiller, GoesOn, HasDash, RootText, Fold;
    LeadsInRow();
    WordsInRow(v, " ", w);
    WordsInRow(v, ".", w);
    WordsInRow(v, ".-", w);
    WordsInRow(v, " -", w);
  }

  // a '-' after a space, a tab or an end of line negates
  lemma SpaceBeforeDash(v: string, c: char, w: string)
    requires IsPlainWord(v) && IsPlainWord(w)
    requires c == ' ' || c == '\t' || c == '\n' || c == '\r'
    ensures RootText(v + [c, '-'] + w).q == Some(And([Word(Fold(v)), Not(Word(Fold(w)))]))
  {
    hide IsPlainWord, RootText, Fold, IsFiller, GoesOn, HasDash;
    SpaceThenDash(c);
    WordsInRow(v, [c, '-'], w);
  }

  lemma SpaceThenDash(c: char)
    requires c == ' ' || c == '\t' || c == '\n' || c == '\r'
    ensures IsFiller([c, '-']) && GoesOn([c, '-']) && HasDash([c, '-'])
  {
    hide SkipSpace, HasDash, GoesOn;
    SpaceSkipped(c);
  }

  lemma SpaceSkipped(c: char)
    requires IsSpace(c)
    ensures GoesOn([c, '-']) && HasDash([c, '-'])
  {
    hide SkipSpace;
    PastDash();
    hide IsSpace;
    SkipStep([c, '-']);
    assert [c, '-'][1..] == "-";
  }

  lemma PastDash()
    ensures SkipSpace("-") == "-"
  {
    hide SkipSpace;
    PastSpace("-");
  }

  // after a stray character it is one too
  lemma StrayBeforeDash(v: string, c: char, w: string)
    requires IsPlainWord(v) && IsPlainWord(w) && IsFiller([c])
    requires c != ' ' && c != '\t' && c != '\n' && c != '\r' && c != '-' && c != '|' && c != ')'
    ensures RootText(v + [c, '-'] + w).q == Some(And([Word(Fold(v)), Word(Fold(w))]))
  {
    hide IsPlainWord, RootText, Fold, IsFiller, GoesOn, HasDash;
    StrayThenDash(c);
    WordsInRow(v, [c, '-'], w);
  }

  lemma StrayThenDash(c: char)
    requires IsFiller([c]) && c != ' ' && c != '\t' && c != '\n' && c != '\r' && c != '-' && c != '|' && c != ')'
    ensures IsFiller([c, '-']) && GoesOn([c, '-']) && !HasDash([c, '-'])
  {
    hide SkipSpace;
    SkipStep([c, '-']);
    assert [c][0] == c;
  }

  // words in a row bind more tightly than the '|' after them
  lemma RowsAreAlternatives(v: string, w: string, x: string)
    requires IsPlainWord(v) && IsPlainWord(w) && IsPlainWord(x)
    ensures RootText(v + " " + w + "|" + x).q == Some(Or([And([Word(Fold(v)), Word(Fold(w))]), Word(Fold(x))]))
  {
    hide IsPlainWord, RootText, AndTree, AndString, IsAnd, Fold, IsFiller, GoesOn, HasDash, EndsAnd, StartsNoWord,
         NextIs, OrTree, OrString, IsOr;
    LeadIsEmpty();
    LeadsInRow();
    BarBefore(x);
    BareRow(v, " ", w, "|" + x);
    BareWord(x, "");
    var a, b := Conjunction(Unary("", Bare(v)), Single(Unary(" ", Bare(w)))), Single(Unary("", Bare(x)));
    assert x + "" == x;
    TwoRows(a, b, "");
    WholeIsRead(Alternative(a, "", Operand(b)));
    assert v + " " + w + ("|" + x) == v + " " + w + "|" + x;
  }

  lemma BarBefore(x: string)
    ensures StartsNoWord("|" + x) && EndsAnd("|" + x)
  {
  }

  lemma BareWord(x: string, tail: string)
    requires IsPlainWord(x) && StartsNoWord(tail) && EndsAnd(tail)
    ensures IsAnd(Single(Unary("", Bare(x))), tail, true)
    ensures AndString(Single(Unary("", Bare(x))), tail) == x + tail
    ensures AndTree(Single(Unary("", Bare(x)))) == Word(Fold(x))
  {
    hide IsPlainWord, Fold, IsFiller, HasDash, GoesOn, StartsNoWord, EndsAnd, IsAnd, AndString, AndTree, UnaryString,
         UnaryTree, IsUnary;
    LeadIsEmpty();
    BareUnary("", x, tail, true);
    LastInRow(Unary("", Bare(x)), tail, true);
    assert "" + (x + tail) == x + tail;
  }

  // two words in quotes are a phrase
  lemma QuotesArePhrases(v: string, w: string)
    requires IsPlainWord(v) && IsPlainWord(w)
    ensures RootText("\"" + v + " " + w + "\"").q == Some(Phrase([Fold(v), Fold(w)]))
  {
    hide IsPlainWord, RootText, Fold, IsFiller, GoesOn, HasDash, IsHead, HeadString, HeadTree, IsAnd, AndString,
         AndTree, UnaryString, UnaryTree, IsUnary;
    LeadIsEmpty();
    QuotedPair(v, w);
    var h := Quoted("", [QuotedWord(v, " "), QuotedWord(w, "")], true);
    LeadUnary(h, "");
    LastInRow(Unary("", h), "", true);
    RowIsRead(Single(Unary("", h)));
    assert "\"" + v + " " + w + "\"" + "" == "\"" + v + " " + w + "\"";
  }

  lemma QuotedPair(v: string, w: string)
    requires IsPlainWord(v) && IsPlainWord(w)
    ensures IsHead(Quoted("", [QuotedWord(v, " "), QuotedWord(w, "")], true), "")
    ensures HeadString(Quoted("", [QuotedWord(v, " "), QuotedWord(w, "")], true), "") == "\"" + v + " " + w + "\""
    ensures HeadTree(Quoted("", [QuotedWord(v, " "), QuotedWord(w, "")], true)) == Phrase([Fold(v), Fold(w)])
  {
    hide IsPlainWord, Fold, QuotedString, QuotedWords;
    var words := [QuotedWord(v, " "), QuotedWord(w, "")];
    assert words[1..] == [QuotedWord(w, "")] && [QuotedWord(w, "")][1..] == [];
    QuotedStep([], "\"" + "");
    QuotedStep([QuotedWord(w, "")], "\"" + "");
    QuotedStep(words, "\"" + "");
    assert "\"" + ("" + (v + (" " + (w + ("" + ("\"" + "")))))) == "\"" + v + " " + w + "\"";
  }

  lemma QuotedStep(words: seq<QuotedWord>, tail: string)
    ensures words == [] ==> QuotedString(words, tail) == tail && QuotedWords(words) == []
    ensures words != [] ==>
              && QuotedString(words, tail) == words[0].word + (words[0].gap + QuotedString(words[1..], tail))
              && QuotedWords(words) == [Fold(words[0].word)] + QuotedWords(words[1..])
  {
    hide Fold;
  }

  // a group is one operand of its row
  lemma GroupsAreOperands(v: string, w: string, x: string)
    requires IsPlainWord(v) && IsPlainWord(w) && IsPlainWord(x)
    ensures RootText("(" + v + "|" + w + ") " + x).q == Some(And([Or([Word(Fold(v)), Word(Fold(w))]), Word(Fold(x))]))
  {
    hide IsPlainWord, RootText, Fold, IsFiller, GoesOn, HasDash, IsHead, HeadString, HeadTree, IsAnd, AndString,
         AndTree, StartsNoWord, EndsAnd, NextIs, UnaryString, UnaryTree, IsUnary;
    LeadIsEmpty();
    LeadsInRow();
    var h := Group(Whole(Alternative(Single(Unary("", Bare(v))), "", Operand(Single(Unary("", Bare(w)))))), Closed(""));
    BareUnary(" ", x, "", false);
    OrGroup(v, w, " " + (x + ""));
    var u, last := Unary("", h), Unary(" ", Bare(x));
    LeadUnary(h, " " + (x + ""));
    PairInRow(u, last, "");
    RowIsRead(Conjunction(u, Single(last)));
    assert "(" + v + "|" + w + ")" + (" " + (x + "")) == "(" + v + "|" + w + ") " + x;
  }

  lemma LeadUnary(h: Head, tail: string)
    requires IsHead(h, tail)
    ensures IsUnary(Unary("", h), tail, true) && UnaryString(Unary("", h), tail) == HeadString(h, tail)
    ensures UnaryTree(Unary("", h)) == HeadTree(h)
  {
    hide IsHead, HeadString, HeadTree, HasDash, IsFiller;
    LeadIsEmpty();
  }

  lemma OrGroup(v: string, w: string, tail: string)
    requires IsPlainWord(v) && IsPlainWord(w)
    ensures var h :=
              Group(Whole(Alternative(Single(Unary("", Bare(v))), "", Operand(Single(Unary("", Bare(w)))))),
                    Closed(""));
            && IsHead(h, tail) && HeadString(h, tail) == "(" + v + "|" + w + ")" + tail
            && HeadTree(h) == Or([Word(Fold(v)), Word(Fold(w))])
  {
    hide IsPlainWord, Fold, IsAnd, AndString, AndTree, StartsNoWord, EndsAnd, NextIs, IsOr, OrString, OrTree;
    LeadIsEmpty();
    var a, b, rest := Single(Unary("", Bare(v))), Single(Unary("", Bare(w))), ")" + tail;
    ParenBefore(tail);
    BarBefore(w + rest);
    BareWord(w, rest);
    BareWord(v, "|" + (w + rest));
    TwoRows(a, b, rest);
    ClosedGroup(Alternative(a, "", Operand(b)), tail);
    assert "(" + (v + ("|" + (w + (")" + tail)))) == "(" + v + "|" + w + ")" + tail;
  }

  lemma ClosedGroup(o: OrRule, tail: string)
    requires IsOr(o, ")" + tail)
    ensures IsHead(Group(Whole(o), Closed("")), tail)
    ensures HeadString(Group(Whole(o), Closed("")), tail) == "(" + OrString(o, ")" + tail)
    ensures HeadTree(Group(Whole(o), Closed(""))) == OrTree(o)
  {
    hide IsOr, OrString, OrTree;
    var rest := ")" + tail;
    assert CloseString(Closed(""), tail) == rest by { assert "" + rest == rest; }
    assert QueryString(Whole(o), rest) == OrString(o, rest);
    assert IsQuery(Whole(o), rest) && QueryTree(Whole(o)) == OrTree(o);
  }

  lemma ParenBefore(s: string)
    ensures StartsNoWord(")" + s) && EndsAnd(")" + s) && !NextIs(")" + s, '|')
  {
  }
}
