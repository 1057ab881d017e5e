/** A sort by key: some arrangement of the same elements with the keys in order. Which of the
    equal ones comes first is left open. */
module Sorting {
  ghost predicate IsSorted<T(!new)>(s: seq<T>, key: T -> int) {
    forall i, j :: 0 <= i < j < |s| ==> key(s[i]) <= key(s[j])
  }

  method Sort<T(!new)>(s: seq<T>, key: T -> int) returns (r: seq<T>)
    ensures multiset(r) == multiset(s) && IsSorted(r, key)
  {
    r := [];
    assert s[..0] == [];
    for i := 0 to |s|
      invariant multiset(r) == multiset(s[..i]) && IsSorted(r, key)
    {
      assert s[..i + 1] == s[..i] + [s[i]];
      r := Insert(r, s[i], key);
    }
    assert s[..|s|] == s;
  }

  method Insert<T(!new)>(s: seq<T>, x: T, key: T -> int) returns (r: seq<T>)
    requires IsSorted(s, key)
    ensures multiset(r) == multiset(s) + multiset{x} && IsSorted(r, key)
  {
    var i := |s|;
    hide IsSorted;
    while i > 0 && key(x) < key(s[i - 1])
      invariant 0 <= i <= |s|
      invariant forall j :: i <= j < |s| ==> key(x) < key(s[j])
    {
      i := i - 1;
    }
    InsertedIsSorted(s, x, i, key);
    InsertedElements(s, x, i);
    r := s[..i] + [x] + s[i..];
  }

  lemma InsertedElements<T>(s: seq<T>, x: T, i: nat)
    requires i <= |s|
    ensures multiset(s[..i] + [x] + s[i..]) == multiset(s) + multiset{x}
  {
    assert s == s[..i] + s[i..];
  }

  lemma InsertedIsSorted<T(!new)>(s: seq<T>, x: T, i: nat, key: T -> int)
    requires IsSorted(s, key) && i <= |s|
    requires i > 0 ==> key(s[i - 1]) <= key(x)
    requires forall j :: i <= j < |s| ==> key(x) < key(s[j])
    ensures IsSorted(s[..i] + [x] + s[i..], key)
  {
    var r := s[..i] + [x] + s[i..];
    forall j, k | 0 <= j < k < |r| ensures key(r[j]) <= key(r[k]) {
      var a, b := if j <= i then j else j - 1, if k <= i then k else k - 1;
      assert j != i ==> r[j] == s[a];
      assert k != i ==> r[k] == s[b];
      assert k == i && j < i - 1 ==> key(s[j]) <= key(s[i - 1]);
    }
  }

  lemma SameElements<T>(a: seq<T>, b: seq<T>, x: T)
    requires multiset(a) == multiset(b)
    ensures x in a <==> x in b
  {
    assert x in a <==> x in multiset(a);
    assert x in b <==> x in multiset(b);
  }
}
