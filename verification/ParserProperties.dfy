/** What the parser does with any text: it keeps every word it reads, whole and in order, and
    it gives back the tree of every derivation of the query grammar. */
module ParserProperties {
  import opened Wrappers
  import opened Text
  import opened Queries
  import opened Parsing

  // ---- no word read is lost, split or reordered

  function WordsOf(q: Query): seq<string>
    decreases q
  {
    match q
    case Word(term) => [term]
    case Phrase(words) => words
    case And(kids) => WordsOfAll(kids)
    case Or(kids) => WordsOfAll(kids)
    case Not(inner) => WordsOf(inner)
  }

  function WordsOfAll(kids: seq<Query>): seq<string>
    decreases kids
  {
    if kids == [] then [] else WordsOfAll(kids[..|kids| - 1]) + WordsOf(kids[|kids| - 1])
  }

  // every operator node has the operands it needs
  predicate IsGrown(q: Query)
    decreases q
  {
    match q
    case Word(term) => term != ""
    case Phrase(words) => |words| >= 2
    case And(kids) => |kids| >= 2 && forall k :: k in kids ==> IsGrown(k)
    case Or(kids) => |kids| >= 2 && forall k :: k in kids ==> IsGrown(k)
    case Not(inner) => IsGrown(inner)
  }

  function WordsOfAny(q: Option<Query>): seq<string> {
    match q case None => [] case Some(tree) => WordsOf(tree)
  }

  // the words of the tree, then those of the text left over, are the words of the whole
  ghost predicate Keeps(words: seq<string>, s: string, p: Parsed) {
    && words + Runs(s) == WordsOfAny(p.q) + Runs(p.rest)
    && (p.q.Some? ==> IsGrown(p.q.value))
  }

  lemma {:induction false} SkippedSpaceKeeps(s: string)
    ensures Runs(SkipSpace(s)) == Runs(s)
  {
    if s != "" && IsSpace(s[0]) {
      SkippedSpaceKeeps(s[1..]);
    }
  }

  // one more tree, read between the words before it and the rest
  lemma ChainKeeps(words: seq<string>, s: string, next: Parsed, p: Parsed)
    requires next.q.Some? && Keeps([], s, next) && Keeps(words + WordsOf(next.q.value), next.rest, p)
    ensures Keeps(words, s, p)
  {
    hide Runs, WordsOf, IsGrown;
    var w := WordsOf(next.q.value);
    assert [] + Runs(s) == Runs(s);
    assert words + (w + Runs(next.rest)) == (words + w) + Runs(next.rest);
  }

  lemma LaterTextKeeps(words: seq<string>, s: string, t: string, p: Parsed)
    requires Runs(s) == Runs(t) && Keeps(words, t, p)
    ensures Keeps(words, s, p)
  {
    hide Runs, WordsOf, IsGrown;
  }

  lemma NothingReadKeeps(words: seq<string>, s: string, p: Parsed, q: Option<Query>)
    requires p.q.None? && Keeps([], s, p)
    requires WordsOfAny(q) == words && (q.Some? ==> IsGrown(q.value))
    ensures Keeps(words, s, Parsed(q, p.rest))
  {
    hide Runs, WordsOf, IsGrown;
    assert [] + Runs(s) == Runs(s) && [] + Runs(p.rest) == Runs(p.rest);
  }

  lemma JoinedKeeps(left: Option<Query>, right: Query)
    requires (left.Some? ==> IsGrown(left.value)) && IsGrown(right)
    ensures WordsOf(JoinOr(left, right)) == WordsOfAny(left) + WordsOf(right)
    ensures IsGrown(JoinOr(left, right))
  {
    if left.Some? {
      var q := left.value;
      if q.Or? {
        assert (q.kids + [right])[..|q.kids|] == q.kids;
      } else {
        assert [q, right][..1] == [q];
        OneKid(q);
      }
    }
  }

  lemma WrappedKeeps(kids: seq<Query>)
    requires kids != [] && forall k :: k in kids ==> IsGrown(k)
    ensures WordsOf(WrapAnd(kids)) == WordsOfAll(kids) && IsGrown(WrapAnd(kids))
  {
    assert |kids| == 1 ==> kids[..0] == [];
    assert kids[0] in kids;
  }

  lemma {:induction false} OrKeepsWords(s: string)
    ensures Keeps([], s, OrText(s))
    decreases |s|, 5
  {
    hide AndText, OrTail, Runs, WordsOf, IsGrown;
    AndKeepsWords(s);
    var first := AndText(s);
    OrTailKeepsWords(first.q, first.rest);
  }

  lemma {:induction false} OrTailKeepsWords(left: Option<Query>, s: string)
    requires left.Some? ==> IsGrown(left.value)
    ensures Keeps(WordsOfAny(left), s, OrTail(left, s))
    decreases |s|, 4
  {
    hide AndText, WordsOf, IsGrown, SkipSpace, JoinOr, Runs, Keeps;
    SkippedSpaceKeeps(s);
    var t := SkipSpace(s);
    if StartsWith(t, '|') {
      assert Runs(t) == Runs(t[1..]) by { OtherCharKeeps(t); }
      SkippedSpaceKeeps(t[1..]);
      var u := SkipSpace(t[1..]);
      AndKeepsWords(u);
      var right := AndText(u);
      if right.q.Some? {
        assert IsGrown(right.q.value) by { TreeIsGrown([], u, right); }
        JoinedKeeps(left, right.q.value);
        OrTailKeepsWords(Some(JoinOr(left, right.q.value)), right.rest);
        ChainKeeps(WordsOfAny(left), u, right, OrTail(left, s));
      } else {
        NothingReadKeeps(WordsOfAny(left), u, right, left);
      }
      LaterTextKeeps(WordsOfAny(left), s, u, OrTail(left, s));
    } else {
      StoppedKeeps(left, s, t);
    }
  }

  lemma StoppedKeeps(q: Option<Query>, s: string, t: string)
    requires Runs(s) == Runs(t) && (q.Some? ==> IsGrown(q.value))
    ensures Keeps(WordsOfAny(q), s, Parsed(q, t))
  {
    hide Runs, WordsOf, IsGrown;
  }

  lemma TreeIsGrown(words: seq<string>, s: string, p: Parsed)
    requires Keeps(words, s, p) && p.q.Some?
    ensures IsGrown(p.q.value)
  {
    hide Runs, WordsOf, IsGrown;
  }

  lemma OtherCharKeeps(s: string)
    requires s != "" && !IsWordChar(s[0])
    ensures Runs(s) == Runs(s[1..])
  {
  }

  lemma {:induction false} AndKeepsWords(s: string)
    ensures Keeps([], s, AndText(s))
    decreases |s|, 3
  {
    hide UnaryText, WordsOf, IsGrown, SkipSpace, Runs;
    SkippedSpaceKeeps(s);
    var t := SkipSpace(s);
    UnaryKeepsWords(t);
    var first := UnaryText(t);
    if first.q.Some? {
      OneKid(first.q.value);
      AndTailKeepsWords([first.q.value], first.rest);
    }
  }

  lemma OneKid(q: Query)
    ensures WordsOfAll([q]) == WordsOf(q)
  {
    assert [q][..0] == [];
  }

  lemma AnotherKid(kids: seq<Query>, kid: Query)
    ensures WordsOfAll(kids + [kid]) == WordsOfAll(kids) + WordsOf(kid)
  {
    assert (kids + [kid])[..|kids|] == kids;
  }

  lemma {:induction false} AndTailKeepsWords(kids: seq<Query>, s: string)
    requires kids != [] && forall k :: k in kids ==> IsGrown(k)
    ensures Keeps(WordsOfAll(kids), s, AndTail(kids, s))
    decreases |s|, 3
  {
    hide UnaryText, WordsOf, WordsOfAll, IsGrown, SkipSpace, WrapAnd, Runs, Keeps;
    SkippedSpaceKeeps(s);
    WrappedKeeps(kids);
    var t := SkipSpace(s);
    if t == "" || t[0] == '|' || t[0] == ')' {
      StoppedKeeps(Some(WrapAnd(kids)), s, t);
    } else {
      UnaryKeepsWords(t);
      var next := UnaryText(t);
      if next.q.Some? {
        TreeIsGrown([], t, next);
        AnotherKid(kids, next.q.value);
        AndTailKeepsWords(kids + [next.q.value], next.rest);
        ChainKeeps(WordsOfAll(kids), t, next, AndTail(kids, s));
      } else {
        NothingReadKeeps(WordsOfAll(kids), t, next, Some(WrapAnd(kids)));
      }
      LaterTextKeeps(WordsOfAll(kids), s, t, AndTail(kids, s));
    }
  }

  lemma {:induction false} UnaryKeepsWords(s: string)
    ensures Keeps([], s, UnaryText(s))
    decreases |s|, 2
  {
    hide PrimaryText, SkipSpace, Runs;
    SkippedSpaceKeeps(s);
    var t := SkipSpace(s);
    if StartsWith(t, '-') {
      OtherCharKeeps(t);
      PrimaryKeepsWords(t[1..]);
    } else {
      PrimaryKeepsWords(t);
    }
  }

  lemma {:induction false} PrimaryKeepsWords(s: string)
    ensures Keeps([], s, PrimaryText(s))
    decreases |s|, 1
  {
    hide OrText, PhraseText, SkipSpace, WordsOf, IsGrown, Runs, AfterClose;
    SkippedSpaceKeeps(s);
    var t := SkipSpace(s);
    if t == "" {
    } else if IsWordChar(t[0]) {
      WordKeeps(t);
    } else {
      OtherCharKeeps(t);
      if t[0] == '(' {
        OrKeepsWords(t[1..]);
        CloseKeeps(OrText(t[1..]).rest);
      } else if t[0] == '"' {
        PhraseKeepsWords([], t[1..]);
      } else {
        PrimaryKeepsWords(t[1..]);
      }
    }
  }

  lemma WordKeeps(t: string)
    requires t != "" && IsWordChar(t[0])
    ensures RunLength(t) > 0 && Runs(t) == [Fold(t[..RunLength(t)])] + Runs(t[RunLength(t)..])
    ensures WordsOf(Word(Fold(t[..RunLength(t)]))) == [Fold(t[..RunLength(t)])]
    ensures IsGrown(Word(Fold(t[..RunLength(t)])))
  {
  }

  lemma CloseKeeps(s: string)
    ensures Runs(AfterClose(s)) == Runs(s)
  {
    hide SkipSpace, Runs;
    SkippedSpaceKeeps(s);
    var t := SkipSpace(s);
    if StartsWith(t, ')') {
      OtherCharKeeps(t);
    }
  }

  lemma {:induction false} PhraseKeepsWords(words: seq<string>, s: string)
    requires forall w :: w in words ==> w != ""
    ensures Keeps(words, s, PhraseText(words, s))
    decreases |s|, 0
  {
    hide Runs;
    assert |words| == 1 ==> words == [words[0]] && words[0] in words;
    assert PhraseOf(words).Some? ==> WordsOfAny(PhraseOf(words)) == words && IsGrown(PhraseOf(words).value);
    if s == "" {
    } else if IsWordChar(s[0]) {
      WordKeeps(s);
      PhraseKeepsWords(words + [Fold(s[..RunLength(s)])], s[RunLength(s)..]);
    } else {
      OtherCharKeeps(s);
      if s[0] != '"' {
        PhraseKeepsWords(words, s[1..]);
      }
    }
  }

  // the words of the tree, left to right, then the words of the text that was not read, are
  // the folded maximal alphanumeric runs of the input; no operator of the tree lacks operands
  lemma ParseKeepsWords(raw: string)
    ensures var p := RootText(raw);
            && WordsOfAny(p.q) + Runs(p.rest) == Runs(raw)
            && (p.q.Some? ==> IsGrown(p.q.value))
  {
    hide OrText, Runs, SkipSpace, WordsOf, IsGrown;
    SkippedSpaceKeeps(raw);
    OrKeepsWords(SkipSpace(raw));
  }

  // ---- when there is no tree

  // no word before the next quote, and the text past that quote
  predicate IsEmptyPhrase(body: string) {
    body == "" || body[0] == '"' || (!IsWordChar(body[0]) && IsEmptyPhrase(body[1..]))
  }

  function PastPhrase(body: string): (rest: string)
    ensures |rest| <= |body|
  {
    if body == "" then body else if body[0] == '"' then body[1..] else PastPhrase(body[1..])
  }

  lemma {:induction false} PhraseIsEmpty(words: seq<string>, s: string)
    ensures PhraseText(words, s).q.None? <==> words == [] && IsEmptyPhrase(s)
    ensures words == [] && IsEmptyPhrase(s) ==> PhraseText(words, s).rest == PastPhrase(s)
    decreases |s|
  {
    if s == "" || s[0] == '"' {
    } else if IsWordChar(s[0]) {
      PhraseIsEmpty(words + [Fold(s[..RunLength(s)])], s[RunLength(s)..]);
    } else {
      PhraseIsEmpty(words, s[1..]);
    }
  }

  // a scan of the text for the words that count, one flag for each open parenthesis: a
  // '|' after an empty phrase gives its level one more chance, and only one
  predicate IsSilent(s: string, retried: seq<bool>)
    requires retried != []
    decreases |s|, |retried|
  {
    if s == "" then true
    else if IsWordChar(s[0]) then false
    else if s[0] == '(' then IsSilent(s[1..], retried + [false])
    else if s[0] == '"' then IsEmptyPhrase(s[1..]) && IsSilentAfter(PastPhrase(s[1..]), retried)
    else IsSilent(s[1..], retried)
  }

  predicate IsSilentAfter(s: string, retried: seq<bool>)
    requires retried != []
    decreases |s|, |retried|
  {
    var n := |retried| - 1;
    var t := SkipSpace(s);
    if !retried[n] && StartsWith(t, '|') then IsSilent(t[1..], retried[..n] + [true])
    else n == 0 || IsSilentAfter(AfterClose(t), retried[..n])
  }

  lemma {:induction false} SkippedSpaceIsSilent(s: string, retried: seq<bool>)
    requires retried != []
    ensures IsSilent(SkipSpace(s), retried) == IsSilent(s, retried)
  {
    hide IsSilent;
    if s != "" && IsSpace(s[0]) {
      SpaceIsSilent(s, retried);
      SkippedSpaceIsSilent(s[1..], retried);
    }
  }

  lemma SpaceIsSilent(s: string, retried: seq<bool>)
    requires retried != [] && s != "" && IsSpace(s[0])
    ensures IsSilent(s, retried) == IsSilent(s[1..], retried)
  {
    hide IsSilentAfter, IsEmptyPhrase, PastPhrase;
  }

  lemma {:induction false} SkipSpaceTwice(s: string)
    ensures SkipSpace(SkipSpace(s)) == SkipSpace(s)
  {
    if s != "" && IsSpace(s[0]) {
      SkipSpaceTwice(s[1..]);
    }
  }

  // a tree means the scan finds a word; no tree, that it goes on where the parser stopped
  ghost predicate ScansLike(p: Parsed, silent: bool, later: bool) {
    if p.q.Some? then !silent else silent == later
  }

  // what the scan does once a level is left
  ghost predicate IsSilentOutside(s: string, outer: seq<bool>) {
    outer == [] || IsSilentAfter(AfterClose(s), outer)
  }

  lemma {:induction false} OrScan(s: string, outer: seq<bool>)
    ensures ScansLike(OrText(s), IsSilent(s, outer + [false]), IsSilentOutside(OrText(s).rest, outer))
    decreases |s|, 5
  {
    hide AndText, IsSilent, IsSilentAfter, OrTail, AfterClose, SkipSpace;
    AndScan(s, outer + [false]);
    var first := AndText(s);
    if first.q.None? {
      OrTailScan(first.rest, outer);
    } else {
      OrTailIsTree(first.q, first.rest);
    }
  }

  lemma {:induction false} OrTailIsTree(left: Option<Query>, s: string)
    requires left.Some?
    ensures OrTail(left, s).q.Some?
    decreases |s|
  {
    hide JoinOr;
    var t := SkipSpace(s);
    if StartsWith(t, '|') {
      var right := AndText(SkipSpace(t[1..]));
      if right.q.Some? {
        OrTailIsTree(Some(JoinOr(left, right.q.value)), right.rest);
      }
    }
  }

  lemma {:induction false} OrTailScan(s: string, outer: seq<bool>)
    ensures ScansLike(OrTail(None, s), IsSilentAfter(s, outer + [false]),
                      IsSilentOutside(OrTail(None, s).rest, outer))
    decreases |s|, 4
  {
    hide AndText, IsSilent, IsSilentAfter, IsSilentOutside, SkipSpace;
    var t := SkipSpace(s);
    SilentAfterIs(s, outer, false);
    if StartsWith(t, '|') {
      var u := SkipSpace(t[1..]);
      SkippedSpaceIsSilent(t[1..], outer + [true]);
      AndScan(u, outer + [true]);
      var right := AndText(u);
      if right.q.Some? {
        OrTailIsTree(Some(JoinOr(None, right.q.value)), right.rest);
      } else {
        SilentAfterIs(right.rest, outer, true);
      }
    }
  }

  lemma SilentAfterIs(s: string, outer: seq<bool>, tried: bool)
    ensures var t := SkipSpace(s);
            && IsSilentAfter(s, outer + [tried]) ==
               (if !tried && StartsWith(t, '|') then IsSilent(t[1..], outer + [true]) else IsSilentOutside(t, outer))
            && IsSilentOutside(t, outer) == IsSilentOutside(s, outer)
  {
    hide IsSilent, SkipSpace, IsSilentAfter, AfterClose;
    var all, n := outer + [tried], |outer|;
    assert all[..n] == outer && all[n] == tried;
    SilentAfterUnfolds(s, all);
    SkippedSpaceCloses(s);
  }

  lemma SilentAfterUnfolds(s: string, retried: seq<bool>)
    requires retried != []
    ensures var n := |retried| - 1;
            var t := SkipSpace(s);
            IsSilentAfter(s, retried) ==
            if !retried[n] && StartsWith(t, '|') then IsSilent(t[1..], retried[..n] + [true])
            else n == 0 || IsSilentAfter(AfterClose(t), retried[..n])
  {
    hide IsSilent, SkipSpace, AfterClose;
  }

  lemma SkippedSpaceCloses(s: string)
    ensures AfterClose(SkipSpace(s)) == AfterClose(s)
  {
    hide SkipSpace;
    SkipSpaceTwice(s);
  }

  lemma {:induction false} AndScan(s: string, retried: seq<bool>)
    requires retried != []
    ensures ScansLike(AndText(s), IsSilent(s, retried), IsSilentAfter(AndText(s).rest, retried))
    decreases |s|, 3
  {
    hide UnaryText, IsSilent, IsSilentAfter, SkipSpace, AndTail;
    SkippedSpaceIsSilent(s, retried);
    UnaryScan(SkipSpace(s), retried);
  }

  lemma {:induction false} UnaryScan(s: string, retried: seq<bool>)
    requires retried != []
    ensures ScansLike(UnaryText(s), IsSilent(s, retried), IsSilentAfter(UnaryText(s).rest, retried))
    decreases |s|, 2
  {
    hide PrimaryText, IsSilentAfter, SkipSpace;
    SkippedSpaceIsSilent(s, retried);
    var t := SkipSpace(s);
    if StartsWith(t, '-') {
      PrimaryScan(t[1..], retried);
    } else {
      PrimaryScan(t, retried);
    }
  }

  lemma {:induction false} PrimaryScan(s: string, retried: seq<bool>)
    requires retried != []
    ensures ScansLike(PrimaryText(s), IsSilent(s, retried), IsSilentAfter(PrimaryText(s).rest, retried))
    decreases |s|, 1
  {
    hide OrText, IsSilentAfter, SkipSpace, PhraseText, AfterClose;
    SkippedSpaceIsSilent(s, retried);
    var t := SkipSpace(s);
    if t == "" {
      NothingLeft(retried);
    } else if t[0] == '(' {
      OrScan(t[1..], retried);
    } else if t[0] == '"' {
      PhraseIsEmpty([], t[1..]);
    } else if !IsWordChar(t[0]) {
      PrimaryScan(t[1..], retried);
    }
  }

  lemma {:induction false} NothingLeft(retried: seq<bool>)
    requires retried != []
    ensures IsSilentAfter("", retried)
    decreases |retried|
  {
    var n := |retried| - 1;
    if n > 0 {
      NothingLeft(retried[..n]);
    }
  }

  lemma {:induction false} GrownHasWords(q: Query)
    requires IsGrown(q)
    ensures WordsOf(q) != []
    decreases q
  {
    match q
    case And(kids) => GrownHasWords(kids[|kids| - 1]);
    case Or(kids) => GrownHasWords(kids[|kids| - 1]);
    case Not(inner) => GrownHasWords(inner);
    case _ =>
  }

  // there is no tree exactly when the scan finds no word that counts
  lemma NoTreeExactly(raw: string)
    ensures RootText(raw).q.None? <==> IsSilent(raw, [false])
  {
    hide OrText, IsSilent, SkipSpace;
    SkippedSpaceIsSilent(raw, [false]);
    OrScan(SkipSpace(raw), []);
    assert [] + [false] == [false];
  }

  // the first phrase comes before any word, and is empty
  predicate OpensWithEmptyPhrase(s: string) {
    && s != "" && !IsWordChar(s[0])
    && if s[0] == '"' then IsEmptyPhrase(s[1..]) else OpensWithEmptyPhrase(s[1..])
  }

  lemma {:induction false} SilentHasNoWords(s: string, retried: seq<bool>)
    requires retried != [] && IsSilent(s, retried) && !OpensWithEmptyPhrase(s)
    ensures Runs(s) == []
    decreases |s|
  {
    hide IsSilentAfter;
    if s == "" {
    } else if s[0] == '(' {
      SilentHasNoWords(s[1..], retried + [false]);
    } else {
      SilentHasNoWords(s[1..], retried);
    }
  }

  // the header's claim holds for every text that does not open with an empty phrase ...
  lemma NoTreeMeansNoWords(raw: string)
    ensures Runs(raw) == [] ==> RootText(raw).q.None?
    ensures RootText(raw).q.None? && !OpensWithEmptyPhrase(raw) ==> Runs(raw) == []
  {
    hide OrText, IsSilent, SkipSpace, Runs, WordsOf, IsGrown;
    NoTreeExactly(raw);
    ParseKeepsWords(raw);
    var p := RootText(raw);
    if p.q.Some? {
      GrownHasWords(p.q.value);
    } else if !OpensWithEmptyPhrase(raw) {
      SilentHasNoWords(raw, [false]);
    }
  }

  // ... and fails for one that does: an empty phrase and then a word
  lemma EmptyPhraseHidesWords(word: char)
    requires IsWordChar(word)
    ensures Runs("\"\"" + [word]) != [] && RootText("\"\"" + [word]).q.None?
  {
    hide OrText, IsSilent, IsEmptyPhrase, PastPhrase, IsSilentAfter, SkipSpace, Runs;
    var s := "\"\"" + [word];
    assert s[1..] == "\"" + [word] && s[1..][1..] == [word];
    NoTreeExactly(s);
    EmptyPhraseThenWord(s, word);
    WordKeeps([word]);
    OtherCharKeeps(s);
    OtherCharKeeps(s[1..]);
  }

  lemma EmptyPhraseThenWord(s: string, word: char)
    requires IsWordChar(word) && s == "\"\"" + [word]
    ensures IsSilent(s, [false])
  {
    hide IsSilent, IsEmptyPhrase, PastPhrase, IsSilentAfter, SkipSpace;
    assert s[1..] == "\"" + [word] && s[1..][1..] == [word];
    ClosedAtOnce(s[1..]);
    StuckAtWord([word]);
    OpenedQuote(s, [false]);
  }

  lemma OpenedQuote(s: string, retried: seq<bool>)
    requires retried != [] && s != "" && s[0] == '"'
    ensures IsSilent(s, retried) <==> IsEmptyPhrase(s[1..]) && IsSilentAfter(PastPhrase(s[1..]), retried)
  {
    hide IsSilentAfter, IsEmptyPhrase, PastPhrase;
  }

  lemma ClosedAtOnce(body: string)
    requires body != "" && body[0] == '"'
    ensures IsEmptyPhrase(body) && PastPhrase(body) == body[1..]
  {
  }

  lemma StuckAtWord(s: string)
    requires s != "" && IsWordChar(s[0])
    ensures IsSilentAfter(s, [false])
  {
    hide IsSilent;
  }
}
