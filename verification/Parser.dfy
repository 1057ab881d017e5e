/** The query parser: what it reads, as functions from text to a tree and the text left over,
    and the cursor-moving methods that compute them. */
module Parsing {
  import opened Wrappers
  import opened Text
  import opened Queries

  predicate IsSpace(c: char) { c == ' ' || c == '\t' || c == '\n' || c == '\r' }

  function SkipSpace(s: string): (rest: string)
    ensures |rest| <= |s| && rest == s[|s| - |rest|..]
    ensures rest != "" ==> !IsSpace(rest[0])
  {
    if s != "" && IsSpace(s[0]) then SkipSpace(s[1..]) else s
  }

  // a tree, when there is one, and the text not read yet
  datatype Parsed = Parsed(q: Option<Query>, rest: string)

  predicate StartsWith(s: string, c: char) { s != "" && s[0] == c }

  // a further operand of '|'
  function JoinOr(left: Option<Query>, right: Query): Query {
    match left
    case None => right
    case Some(q) => if q.Or? then Or(q.kids + [right]) else Or([q, right])
  }

  function WrapAnd(kids: seq<Query>): Query
    requires kids != []
  {
    if |kids| == 1 then kids[0] else And(kids)
  }

  function OrText(s: string): (p: Parsed)
    ensures |p.rest| <= |s| && (p.q.Some? ==> |p.rest| < |s|)
    decreases |s|, 5
  {
    var first := AndText(s);
    OrTail(first.q, first.rest)
  }

  function OrTail(left: Option<Query>, s: string): (p: Parsed)
    ensures |p.rest| <= |s| && (p.q.Some? && left.None? ==> |p.rest| < |s|)
    decreases |s|, 4
  {
    var t := SkipSpace(s);
    if !StartsWith(t, '|') then Parsed(left, t)
    else
      var right := AndText(SkipSpace(t[1..]));
      if right.q.None? then Parsed(left, right.rest)
      else OrTail(Some(JoinOr(left, right.q.value)), right.rest)
  }

  function AndText(s: string): (p: Parsed)
    ensures |p.rest| <= |s| && (p.q.Some? ==> |p.rest| < |s|)
    decreases |s|, 3
  {
    var first := UnaryText(SkipSpace(s));
    if first.q.None? then first else AndTail([first.q.value], first.rest)
  }

  function AndTail(kids: seq<Query>, s: string): (p: Parsed)
    requires kids != []
    ensures |p.rest| <= |s| && p.q.Some?
    decreases |s|, 3
  {
    var t := SkipSpace(s);
    if t == "" || t[0] == '|' || t[0] == ')' then Parsed(Some(WrapAnd(kids)), t)
    else
      var next := UnaryText(t);
      if next.q.None? then Parsed(Some(WrapAnd(kids)), next.rest)
      else AndTail(kids + [next.q.value], next.rest)
  }

  function UnaryText(s: string): (p: Parsed)
    ensures |p.rest| <= |s| && (p.q.Some? ==> |p.rest| < |s|)
    decreases |s|, 2
  {
    var t := SkipSpace(s);
    if StartsWith(t, '-') then
      var inner := PrimaryText(t[1..]);
      if inner.q.None? then inner else Parsed(Some(Not(inner.q.value)), inner.rest)
    else PrimaryText(t)
  }

  function PrimaryText(s: string): (p: Parsed)
    ensures |p.rest| <= |s| && (p.q.Some? ==> |p.rest| < |s|)
    decreases |s|, 1
  {
    var t := SkipSpace(s);
    if t == "" then Parsed(None, t)
    else if t[0] == '(' then
      var inner := OrText(t[1..]);
      Parsed(inner.q, AfterClose(inner.rest))
    else if t[0] == '"' then PhraseText([], t[1..])
    else if IsWordChar(t[0]) then
      var n := RunLength(t);
      Parsed(Some(Word(Fold(t[..n]))), t[n..])
    else PrimaryText(t[1..])
  }

  // past a closing parenthesis, if there is one
  function AfterClose(s: string): (rest: string)
    ensures |rest| <= |s|
  {
    var t := SkipSpace(s);
    if StartsWith(t, ')') then t[1..] else t
  }

  function PhraseOf(words: seq<string>): Option<Query> {
    if words == [] then None
    else if |words| == 1 then Some(Word(words[0]))
    else Some(Phrase(words))
  }

  // the body of a phrase whose first words have been read
  function PhraseText(words: seq<string>, s: string): (p: Parsed)
    ensures |p.rest| <= |s|
    decreases |s|, 0
  {
    if s == "" then Parsed(PhraseOf(words), s)
    else if s[0] == '"' then Parsed(PhraseOf(words), s[1..])
    else if IsWordChar(s[0]) then
      var n := RunLength(s);
      PhraseText(words + [Fold(s[..n])], s[n..])
    else PhraseText(words, s[1..])
  }

  function RootText(s: string): Parsed { OrText(SkipSpace(s)) }

  lemma EmptyFold()
    ensures Fold("") == ""
  {
  }

  lemma FoldGoesOn(s: string, c: char)
    ensures Fold(s + [c]) == Fold(s) + [ToLower(c)]
  {
  }

  lemma RunGoesOn(s: string)
    requires s != "" && IsWordChar(s[0])
    ensures RunLength(s) == 1 + RunLength(s[1..])
  {
  }

  lemma RunEnds(s: string)
    requires s == "" || !IsWordChar(s[0])
    ensures RunLength(s) == 0
  {
  }

  // ---- the parser

  class Parser {
    const s: string
    var i: nat

    ghost predicate Valid()
      reads this
    {
      i <= |s|
    }

    // the text from the cursor on
    ghost function Rest(): string
      requires Valid()
      reads this
    {
      s[i..]
    }

    constructor (s: string)
      ensures Valid() && Rest() == s && this.s == s
    {
      this.s := s;
      i := 0;
    }

    predicate Eof()
      reads this
    {
      i >= |s|
    }

    function Peek(): char
      reads this
    {
      if Eof() then '\0' else s[i]
    }

    method Bump()
      requires Valid() && i < |s|
      modifies this`i
      ensures Valid() && Rest() == old(Rest())[1..]
    {
      i := i + 1;
    }

    method SkipWs()
      requires Valid()
      modifies this`i
      ensures Valid() && Rest() == SkipSpace(old(Rest()))
    {
      while !Eof() && IsSpace(Peek())
        invariant Valid() && SkipSpace(Rest()) == SkipSpace(old(Rest()))
        decreases |s| - i
      {
        Bump();
      }
    }

    method ReadWord() returns (w: string)
      requires Valid()
      modifies this`i
      ensures Valid()
      ensures var n := RunLength(old(Rest())); w == Fold(old(Rest())[..n]) && Rest() == old(Rest())[n..]
    {
      hide RunLength, Fold;
      w := "";
      ghost var start := i;
      EmptyFold();
      assert s[start..i] == "";
      while !Eof() && IsWordChar(Peek())
        invariant Valid() && start <= i
        invariant w == Fold(s[start..i])
        invariant RunLength(s[start..]) == i - start + RunLength(Rest())
        decreases |s| - i
      {
        RunGoesOn(Rest());
        FoldGoesOn(s[start..i], s[i]);
        assert s[start..i + 1] == s[start..i] + [s[i]];
        w := w + [ToLower(Peek())];
        Bump();
      }
      RunEnds(Rest());
    }

    method ParseRoot() returns (root: Option<Query>)
      requires Valid()
      modifies this`i
      ensures Valid() && Parsed(root, Rest()) == RootText(old(Rest()))
    {
      hide OrText, SkipSpace;
      SkipWs();
      root := ParseOr();
    }

    method ParseOr() returns (left: Option<Query>)
      requires Valid()
      modifies this`i
      ensures Valid() && Parsed(left, Rest()) == OrText(old(Rest()))
      decreases |s| - i, 5
    {
      hide AndText, JoinOr;
      left := ParseAnd();
      while true
        invariant Valid() && old(i) <= i
        invariant OrTail(left, Rest()) == OrText(old(Rest()))
        decreases |s| - i
      {
        SkipWs();
        if Peek() != '|' {
          break;
        }
        Bump();
        SkipWs();
        var right := ParseAnd();
        if right.None? {
          break;
        }
        left := Some(JoinOr(left, right.value));
      }
    }

    method ParseAnd() returns (r: Option<Query>)
      requires Valid()
      modifies this`i
      ensures Valid() && Parsed(r, Rest()) == AndText(old(Rest()))
      decreases |s| - i, 3
    {
      hide UnaryText;
      SkipWs();
      var first := ParseUnary();
      if first.None? {
        return None;
      }
      var kids := [first.value];
      while true
        invariant Valid() && old(i) <= i && kids != []
        invariant AndTail(kids, Rest()) == AndText(old(Rest()))
        decreases |s| - i
      {
        SkipWs();
        if Eof() || Peek() == '|' || Peek() == ')' {
          break;
        }
        var next := ParseUnary();
        if next.None? {
          break;
        }
        kids := kids + [next.value];
      }
      if |kids| == 1 {
        return Some(kids[0]);
      }
      return Some(And(kids));
    }

    method ParseUnary() returns (r: Option<Query>)
      requires Valid()
      modifies this`i
      ensures Valid() && Parsed(r, Rest()) == UnaryText(old(Rest()))
      decreases |s| - i, 2
    {
      hide PrimaryText;
      SkipWs();
      if Peek() == '-' {
        Bump();
        var inner := ParsePrimary();
        if inner.None? {
          return None;
        }
        return Some(Not(inner.value));
      }
      r := ParsePrimary();
    }

    method ParsePrimary() returns (r: Option<Query>)
      requires Valid()
      modifies this`i
      ensures Valid() && Parsed(r, Rest()) == PrimaryText(old(Rest()))
      decreases |s| - i, 1
    {
      hide OrText, PhraseText, SkipSpace, RunLength, Fold, AfterClose;
      SkipWs();
      if Eof() {
        return None;
      }
      if Peek() == '(' {
        Bump();
        r := ParseOr();
        SkipClose();
        return;
      }
      if Peek() == '"' {
        Bump();
        r := ParsePhraseBody();
        return;
      }
      if IsWordChar(Peek()) {
        var w := ReadWord();
        return Some(Word(w));
      }
      Bump();
      r := ParsePrimary();
    }

    // past a closing parenthesis; a missing one is fine
    method SkipClose()
      requires Valid()
      modifies this`i
      ensures Valid() && Rest() == AfterClose(old(Rest()))
    {
      hide SkipSpace;
      SkipWs();
      if Peek() == ')' {
        Bump();
      }
    }

    method ParsePhraseBody() returns (r: Option<Query>)
      requires Valid()
      modifies this`i
      ensures Valid() && Parsed(r, Rest()) == PhraseText([], old(Rest()))
    {
      var words := [];
      while !Eof() && Peek() != '"'
        invariant Valid()
        invariant PhraseText(words, Rest()) == PhraseText([], old(Rest()))
        decreases |s| - i
      {
        if IsSpace(Peek()) {
          Bump();
          continue;
        }
        if IsWordChar(Peek()) {
          var w := ReadWord();
          words := words + [w];
          continue;
        }
        Bump();
      }
      if Peek() == '"' {
        Bump();
      }
      if words == [] {
        return None;
      }
      if |words| == 1 {
        return Some(Word(words[0]));
      }
      return Some(Phrase(words));
    }
  }

  method Parse(raw: string) returns (root: Option<Query>)
    ensures root == RootText(raw).q
  {
    var p := new Parser(raw);
    root := p.ParseRoot();
  }
}
