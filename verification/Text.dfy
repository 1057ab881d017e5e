/** Characters, case folding and maximal word runs, shared by the index builder
    (URL parts, folded words) and by the query parser (query words). */
module Text {

  // std::isalnum in the "C" locale, and is_word of the query parser
  predicate IsWordChar(c: char) {
    || 'a' <= c <= 'z'
    || 'A' <= c <= 'Z'
    || '0' <= c <= '9'
  }

  // std::tolower in the "C" locale
  function ToLower(c: char): char {
    if 'A' <= c <= 'Z' then (c as int + 32) as char else c
  }

  function Fold(s: string): (r: string)
    ensures |r| == |s|
    ensures forall i :: 0 <= i < |s| ==> r[i] == ToLower(s[i])
  {
    seq(|s|, i requires 0 <= i < |s| => ToLower(s[i]))
  }

  function FoldAll(words: seq<string>): (r: seq<string>)
    ensures |r| == |words|
    ensures forall i :: 0 <= i < |words| ==> r[i] == Fold(words[i])
  {
    seq(|words|, i requires 0 <= i < |words| => Fold(words[i]))
  }

  // the length of the run of word characters that s starts with
  function RunLength(s: string): (n: nat)
    ensures n <= |s|
    ensures forall i :: 0 <= i < n ==> IsWordChar(s[i])
    ensures n < |s| ==> !IsWordChar(s[n])
  {
    if s == "" || !IsWordChar(s[0]) then 0 else 1 + RunLength(s[1..])
  }

  // the maximal runs of word characters in s, folded, left to right
  function Runs(s: string): seq<string>
    decreases |s|
  {
    if s == "" then []
    else if !IsWordChar(s[0]) then Runs(s[1..])
    else [Fold(s[..RunLength(s)])] + Runs(s[RunLength(s)..])
  }

  // the runs of s when a run `current` (already folded) is open in front of it
  function RunsAfter(current: string, s: string): seq<string> {
    if current == "" then Runs(s)
    else [current + Fold(s[..RunLength(s)])] + Runs(s[RunLength(s)..])
  }

  lemma RunsAfterWordChar(current: string, s: string)
    requires s != "" && IsWordChar(s[0])
    ensures RunsAfter(current, s) == RunsAfter(current + [ToLower(s[0])], s[1..])
  {
    var n := RunLength(s[1..]);
    assert RunLength(s) == n + 1;
    assert s[1..][n..] == s[n + 1..];
    assert Fold(s[..n + 1]) == [ToLower(s[0])] + Fold(s[1..][..n]);
    assert current + Fold(s[..n + 1]) == current + [ToLower(s[0])] + Fold(s[1..][..n]);
    assert current == "" ==> current + Fold(s[..n + 1]) == Fold(s[..n + 1]);
  }

  lemma RunsAfterOther(current: string, s: string)
    requires s != "" && !IsWordChar(s[0])
    ensures RunsAfter(current, s) == (if current == "" then [] else [current]) + Runs(s[1..])
  {
    assert s[..0] == "";
    assert s[0..] == s;
    assert current + Fold("") == current;
  }

  // splitURL: the folded maximal alphanumeric runs of a URL
  method SplitURL(url: string) returns (parts: seq<string>)
    ensures parts == Runs(url)
  {
    parts := [];
    var current := "";
    for i := 0 to |url|
      invariant parts + RunsAfter(current, url[i..]) == Runs(url)
    {
      assert url[i..][1..] == url[i + 1..];
      if IsWordChar(url[i]) {
        RunsAfterWordChar(current, url[i..]);
        current := current + [ToLower(url[i])];
      } else {
        RunsAfterOther(current, url[i..]);
        if current != "" {
          parts := parts + [current];
          current := "";
        }
      }
    }
    assert url[|url|..] == "";
    assert current + Fold("") == current;
    if current != "" {
      parts := parts + [current];
    }
  }

  // an occurrence-level reading of Runs: each run is the fold of a maximal
  // slice of word characters
  lemma {:induction false} RunsAreWords(s: string)
    ensures forall r :: r in Runs(s) ==>
              r != "" && forall k :: 0 <= k < |r| ==> IsWordChar(r[k]) && ToLower(r[k]) == r[k]
    decreases |s|
  {
    if s == "" {
    } else if !IsWordChar(s[0]) {
      RunsAreWords(s[1..]);
    } else {
      RunsAreWords(s[RunLength(s)..]);
    }
  }

  // ---- the same, without naming the functions above

  const DIGITS := "0123456789"
  const UPPER := "ABCDEFGHIJKLMNOPQRSTUVWXYZ"
  const LOWER := "abcdefghijklmnopqrstuvwxyz"

  lemma AlphabetIs(c: char)
    ensures IsWordChar(c) <==> c in DIGITS + UPPER + LOWER
    ensures forall k :: 0 <= k < 26 && c == UPPER[k] ==> ToLower(c) == LOWER[k]
    ensures c !in UPPER ==> ToLower(c) == c
  {
    LettersAre();
    hide DIGITS, UPPER, LOWER;
    IsIn(c, DIGITS, 48);
    IsIn(c, UPPER, 65);
    IsIn(c, LOWER, 97);
  }

  // a string of characters that follow one another
  lemma IsIn(c: char, s: string, first: nat)
    requires forall k :: 0 <= k < |s| ==> s[k] as int == first + k
    ensures c in s <==> first <= c as int < first + |s|
  {
    if first <= c as int < first + |s| {
      assert s[c as int - first] == c;
    }
  }

  lemma LettersAre()
    ensures |DIGITS| == 10 && |UPPER| == 26 && |LOWER| == 26
    ensures forall k :: 0 <= k < 10 ==> DIGITS[k] as int == 48 + k
    ensures forall k :: 0 <= k < 26 ==> UPPER[k] as int == 65 + k && LOWER[k] as int == 97 + k
  {
  }

  // what determines the runs: none in the empty string, one in a word, and those of the two
  // sides of any other character
  lemma RunsOfWord(w: string)
    requires w != "" && forall k :: 0 <= k < |w| ==> IsWordChar(w[k])
    ensures Runs(w) == [Fold(w)] && Runs("") == []
  {
    assert RunLength(w) == |w|;
    assert w[..|w|] == w && w[|w|..] == "";
  }

  lemma {:induction false} RunLengthIs(s: string, n: nat)
    requires n <= |s| && (forall i :: 0 <= i < n ==> IsWordChar(s[i])) && (n < |s| ==> !IsWordChar(s[n]))
    ensures RunLength(s) == n
  {
    hide IsWordChar;
    if n > 0 {
      RunLengthIs(s[1..], n - 1);
    }
  }

  lemma {:induction false} RunsOfSides(a: string, c: char, b: string)
    requires !IsWordChar(c)
    ensures Runs(a + [c] + b) == Runs(a) + Runs(b)
    decreases |a|
  {
    hide IsWordChar;
    var s := a + [c] + b;
    if a == "" {
      assert s[1..] == b;
    } else if !IsWordChar(a[0]) {
      assert s[1..] == a[1..] + [c] + b;
      RunsOfSides(a[1..], c, b);
    } else {
      var n := RunLength(a);
      RunLengthIs(s, n);
      assert s[..n] == a[..n] && s[n..] == a[n..] + [c] + b;
      RunsOfSides(a[n..], c, b);
    }
  }
}
