/** Matching a robots path pattern (section 2.2.3 of RFC 9309): '*' stands for any string, and
    a '$' at the end for the end of the path. Strings are those before the terminating NUL. */
module Wildcards {
  import opened Wrappers

  // ---- what a pattern means

  // the whole text is an instance of the pattern, in which only '*' is special
  ghost predicate IsInstance(text: string, pattern: string) {
    if pattern == "" then text == ""
    else if pattern[0] == '*' then exists k :: 0 <= k <= |text| && IsInstance(text[k..], pattern[1..])
    else text != "" && text[0] == pattern[0] && IsInstance(text[1..], pattern[1..])
  }

  predicate IsAnchored(pattern: string) { pattern != "" && pattern[|pattern| - 1] == '$' }

  // some prefix of the path is an instance; the whole path when the pattern ends in '$'
  ghost predicate Accepts(pattern: string, path: string) {
    if IsAnchored(pattern) then IsInstance(path, pattern[..|pattern| - 1])
    else HasInstancePrefix(pattern, path)
  }

  ghost predicate HasInstancePrefix(pattern: string, path: string) {
    exists k :: 0 <= k <= |path| && IsInstance(path[..k], pattern)
  }

  // the pattern accepts the path from some point on
  ghost predicate AcceptsLater(pattern: string, path: string) {
    exists k :: 0 <= k <= |path| && Accepts(pattern, path[k..])
  }

  // ---- how a match follows the pattern

  lemma EmptyAccepts(path: string)
    ensures Accepts("", path) && AcceptsLater("", path)
  {
    assert IsInstance(path[..0], "") && path[0..] == path;
  }

  lemma DollarAccepts(path: string)
    ensures Accepts("$", path) <==> path == ""
    ensures AcceptsLater("$", path)
  {
    assert "$"[..0] == "";
    assert path[|path|..] == "" && IsInstance("", "");
    assert Accepts("$", path[|path|..]);
  }

  lemma LiteralAccepts(pattern: string, path: string)
    requires pattern != "" && pattern[0] != '*' && pattern != "$"
    ensures Accepts(pattern, path) <==> path != "" && path[0] == pattern[0] && Accepts(pattern[1..], path[1..])
  {
    var n := |pattern|;
    if IsAnchored(pattern) {
      OneChar(pattern);
      assert pattern[..n - 1][1..] == pattern[1..][..n - 2];
    } else {
      forall k | 0 <= k <= |path|
        ensures IsInstance(path[..k], pattern) <==>
                k > 0 && path[0] == pattern[0] && IsInstance(path[1..][..k - 1], pattern[1..])
      {
        assert k > 0 ==> path[..k][1..] == path[1..][..k - 1];
      }
      LiteralPrefix(pattern, path);
    }
  }

  lemma OneChar(s: string)
    ensures |s| == 1 ==> s == [s[0]]
  {
  }

  lemma LiteralPrefix(pattern: string, path: string)
    requires pattern != ""
    requires forall k :: 0 <= k <= |path| ==>
               (IsInstance(path[..k], pattern) <==>
                k > 0 && path[0] == pattern[0] && IsInstance(path[1..][..k - 1], pattern[1..]))
    ensures HasInstancePrefix(pattern, path) <==>
            path != "" && path[0] == pattern[0] && HasInstancePrefix(pattern[1..], path[1..])
  {
    hide IsInstance;
    if path != "" && path[0] == pattern[0] && HasInstancePrefix(pattern[1..], path[1..]) {
      var k :| 0 <= k <= |path[1..]| && IsInstance(path[1..][..k], pattern[1..]);
      assert k + 1 - 1 == k;
      assert IsInstance(path[..k + 1], pattern);
    }
  }

  lemma StarAccepts(pattern: string, path: string)
    requires pattern != "" && pattern[0] == '*'
    ensures Accepts(pattern, path) <==> AcceptsLater(pattern[1..], path)
  {
    var n := |pattern|;
    if IsAnchored(pattern) {
      assert n > 1;
      assert pattern[..n - 1][1..] == pattern[1..][..n - 2];
      AnchoredStar(pattern, path);
    } else {
      StarPrefix(pattern, path);
    }
  }

  lemma AnchoredStar(pattern: string, path: string)
    requires |pattern| > 1 && pattern[0] == '*' && IsAnchored(pattern)
    requires pattern[..|pattern| - 1][1..] == pattern[1..][..|pattern| - 2]
    ensures IsInstance(path, pattern[..|pattern| - 1]) <==> AcceptsLater(pattern[1..], path)
  {
    var body := pattern[..|pattern| - 1];
    assert IsInstance(path, body) <==> exists k :: 0 <= k <= |path| && IsInstance(path[k..], body[1..]);
    forall k | 0 <= k <= |path| ensures Accepts(pattern[1..], path[k..]) <==> IsInstance(path[k..], body[1..]) {}
  }

  lemma StarPrefix(pattern: string, path: string)
    requires pattern != "" && pattern[0] == '*' && !IsAnchored(pattern)
    ensures HasInstancePrefix(pattern, path) <==> AcceptsLater(pattern[1..], path)
  {
    var rest := pattern[1..];
    assert !IsAnchored(rest);
    if HasInstancePrefix(pattern, path) {
      var k :| 0 <= k <= |path| && IsInstance(path[..k], pattern);
      var m :| 0 <= m <= k && IsInstance(path[..k][m..], rest);
      assert path[..k][m..] == path[m..][..k - m];
      assert Accepts(rest, path[m..]);
    }
    if AcceptsLater(rest, path) {
      var m :| 0 <= m <= |path| && Accepts(rest, path[m..]);
      var k :| 0 <= k <= |path[m..]| && IsInstance(path[m..][..k], rest);
      assert path[..m + k][m..] == path[m..][..k];
      assert IsInstance(path[..m + k], pattern);
    }
  }

  // several stars in a row are one
  lemma StarsAreOne(pattern: string, path: string)
    requires pattern != "" && pattern[0] == '*'
    ensures AcceptsLater(pattern, path) <==> AcceptsLater(pattern[1..], path)
  {
    hide Accepts;
    forall k | 0 <= k <= |path| ensures Accepts(pattern, path[k..]) <==> AcceptsLater(pattern[1..], path[k..]) {
      StarAccepts(pattern, path[k..]);
    }
    if AcceptsLater(pattern, path) {
      var k :| 0 <= k <= |path| && Accepts(pattern, path[k..]);
      var m :| 0 <= m <= |path[k..]| && Accepts(pattern[1..], path[k..][m..]);
      assert path[k..][m..] == path[k + m..];
    }
    if AcceptsLater(pattern[1..], path) {
      assert path[0..] == path;
      assert AcceptsLater(pattern[1..], path[0..]);
    }
  }

  lemma LaterStep(pattern: string, path: string)
    ensures AcceptsLater(pattern, path) <==>
            Accepts(pattern, path) || (path != "" && AcceptsLater(pattern, path[1..]))
  {
    hide Accepts;
    assert path[0..] == path;
    if AcceptsLater(pattern, path) {
      var k :| 0 <= k <= |path| && Accepts(pattern, path[k..]);
      if k > 0 {
        assert path[k..] == path[1..][k - 1..];
      }
    }
    if path != "" && AcceptsLater(pattern, path[1..]) {
      var k :| 0 <= k <= |path[1..]| && Accepts(pattern, path[1..][k..]);
      assert path[1..][k..] == path[k + 1..];
    }
  }

  // ---- the matcher

  // None stands for null
  method Match(wildcard: Option<string>, path: Option<string>) returns (b: bool)
    ensures b <==> wildcard.Some? && path.Some? && Accepts(wildcard.value, path.value)
  {
    hide Accepts;
    if wildcard.None? || path.None? {
      return false;
    }
    assert wildcard.value[0..] == wildcard.value && path.value[0..] == path.value;
    b := MatchFrom(wildcard.value, 0, path.value, 0);
  }

  // `wildcard` and `path` from positions w and p on
  method MatchFrom(wildcard: string, w: nat, path: string, p: nat) returns (b: bool)
    requires w <= |wildcard| && p <= |path|
    ensures b <==> Accepts(wildcard[w..], path[p..])
    decreases |wildcard| - w
  {
    hide Accepts;
    var i, j := w, p;
    while i < |wildcard|
      invariant w <= i <= |wildcard| && p <= j <= |path|
      invariant Accepts(wildcard[i..], path[j..]) <==> Accepts(wildcard[w..], path[p..])
    {
      var rest := wildcard[i..];
      assert rest[1..] == wildcard[i + 1..];
      if wildcard[i] == '*' {
        StarAccepts(rest, path[j..]);
        b := MatchAfterStar(wildcard, i, path, j);
        return;
      }
      assert rest == "$" <==> wildcard[i] == '$' && i + 1 == |wildcard|;
      if wildcard[i] == '$' && i + 1 == |wildcard| {
        DollarAccepts(path[j..]);
        return j == |path|;
      }
      LiteralAccepts(rest, path[j..]);
      if j == |path| || path[j] != wildcard[i] {
        return false;
      }
      assert path[j..][1..] == path[j + 1..];
      i := i + 1;
      j := j + 1;
    }
    assert wildcard[i..] == "";
    EmptyAccepts(path[j..]);
    return true;
  }

  // at a star: the rest of the pattern at every position of what is left of the path
  method MatchAfterStar(wildcard: string, w: nat, path: string, p: nat) returns (b: bool)
    requires w < |wildcard| && p <= |path| && wildcard[w] == '*'
    ensures b <==> AcceptsLater(wildcard[w + 1..], path[p..])
    decreases |wildcard| - w, 0
  {
    hide Accepts, AcceptsLater;
    var i, j := w, p;
    while i < |wildcard| && wildcard[i] == '*'
      invariant w <= i <= |wildcard|
      invariant i == w || (AcceptsLater(wildcard[i..], path[p..]) <==> AcceptsLater(wildcard[w + 1..], path[p..]))
    {
      assert wildcard[i..][1..] == wildcard[i + 1..];
      StarsAreOne(wildcard[i..], path[p..]);
      i := i + 1;
    }
    if i == |wildcard| {
      EmptyAccepts(path[p..]);
      return true;
    }
    assert wildcard[i..] == "$" <==> wildcard[i] == '$' && i + 1 == |wildcard|;
    if wildcard[i] == '$' && i + 1 == |wildcard| {
      DollarAccepts(path[p..]);
      return true;
    }
    while j < |path|
      invariant p <= j <= |path|
      invariant AcceptsLater(wildcard[i..], path[j..]) <==> AcceptsLater(wildcard[w + 1..], path[p..])
    {
      LaterStep(wildcard[i..], path[j..]);
      assert path[j..][1..] == path[j + 1..];
      var here := MatchFrom(wildcard, i, path, j);
      if here {
        return true;
      }
      j := j + 1;
    }
    LaterStep(wildcard[i..], path[j..]);
    b := MatchFrom(wildcard, i, path, j);
  }
}
