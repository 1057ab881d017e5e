/** The query AST, its naive boolean reading on a document, and the part of a query
    that can be answered from an inverted index. */
module Queries {
  import opened Wrappers
  import opened Positions
  import opened PhraseReading

  // the words of a phrase are its WORD children
  datatype Query =
    | Word(term: string)
    | Phrase(words: seq<string>)
    | And(kids: seq<Query>)
    | Or(kids: seq<Query>)
    | Not(inner: Query)

  // the boolean reading
  ghost predicate Eval(q: Query, doc: Document)
    decreases q
  {
    match q
    case Word(term) => HasTerm(doc, term)
    case Phrase(words) => HasPhrase(doc, words)
    case And(kids) => forall k | k in kids :: Eval(k, doc)
    case Or(kids) => exists k | k in kids :: Eval(k, doc)
    case Not(inner) => !Eval(inner, doc)
  }

  // ---- what can be found at all, and what is

  // the query has something to go by: a word, a phrase, an AND with such a child that is no
  // NOT, an OR with such a child
  predicate HasPositive(q: Query)
    decreases q
  {
    match q
    case Word(_) => true
    case Phrase(words) => words != []
    case And(kids) => exists k | k in kids :: !k.Not? && HasPositive(k)
    case Or(kids) => exists k | k in kids :: HasPositive(k)
    case Not(_) => false
  }

  // the document is found: an AND finds those that all its positive children find and that
  // nothing under a NOT child does, an OR those that some child finds, a NOT none
  ghost predicate Finds(q: Query, doc: Document)
    decreases q
  {
    match q
    case Word(term) => HasTerm(doc, term)
    case Phrase(words) => words != [] && HasPhrase(doc, words)
    case And(kids) =>
      && (exists k | k in kids :: !k.Not? && HasPositive(k))
      && (forall k | k in kids ::
            if k.Not? then !Finds(k.inner, doc) else HasPositive(k) ==> Finds(k, doc))
    case Or(kids) => exists k | k in kids :: Finds(k, doc)
    case Not(_) => false
  }

  // ---- what the compiler keeps

  // what the compiler keeps of a query: a NOT counts only as a child of an AND that has
  // something else to go by, and whatever is left empty disappears
  function Answerable(q: Query): Option<Query>
    decreases q, 0
  {
    match q
    case Word(_) => Some(q)
    case Phrase(words) => if words == [] then None else Some(q)
    case And(kids) =>
      var kept := AnswerableAnd(kids);
      if Contained(kept) == [] then None else Some(And(kept))
    case Or(kids) =>
      var kept := AnswerableOr(kids);
      if kept == [] then None else Some(Or(kept))
    case Not(_) => None
  }

  function AnswerableOr(kids: seq<Query>): seq<Query>
    decreases kids
  {
    if kids == [] then []
    else
      AnswerableOr(kids[..|kids| - 1]) +
      match Answerable(kids[|kids| - 1])
      case None => []
      case Some(q) => [q]
  }

  function AnswerableAnd(kids: seq<Query>): seq<Query>
    decreases kids
  {
    if kids == [] then []
    else AnswerableAnd(kids[..|kids| - 1]) + AnswerableKid(kids[|kids| - 1])
  }

  // a child of an AND: a NOT is kept when what it negates is
  function AnswerableKid(kid: Query): (kept: seq<Query>)
    ensures |kept| <= 1
    decreases kid, 1
  {
    match kid
    case Not(inner) => (match Answerable(inner) case None => [] case Some(q) => [Not(q)])
    case _ => (match Answerable(kid) case None => [] case Some(q) => [q])
  }

  // the words of a query
  function Terms(q: Query): set<string>
    decreases q
  {
    match q
    case Word(term) => {term}
    case Phrase(words) => set w | w in words
    case And(kids) => set k, t | k in kids && t in Terms(k) :: t
    case Or(kids) => set k, t | k in kids && t in Terms(k) :: t
    case Not(inner) => Terms(inner)
  }

  // the children of an AND that must match, and those that must not
  function Contained(kids: seq<Query>): seq<Query> {
    if kids == [] then []
    else
      var last := kids[|kids| - 1];
      Contained(kids[..|kids| - 1]) + if last.Not? then [] else [last]
  }

  function Excluded(kids: seq<Query>): seq<Query> {
    if kids == [] then []
    else
      var last := kids[|kids| - 1];
      Excluded(kids[..|kids| - 1]) + if last.Not? then [last.inner] else []
  }

  lemma {:induction false} KidsAre(kids: seq<Query>)
    ensures forall k :: k in Contained(kids) <==> k in kids && !k.Not?
    ensures forall x :: x in Excluded(kids) <==> Not(x) in kids
  {
    if kids != [] {
      var n := |kids| - 1;
      KidsAre(kids[..n]);
      assert kids == kids[..n] + [kids[n]];
    }
  }

  lemma EvalAnd(kids: seq<Query>, doc: Document)
    ensures Eval(And(kids), doc) <==>
            && (forall k :: k in Contained(kids) ==> Eval(k, doc))
            && (forall x :: x in Excluded(kids) ==> !Eval(x, doc))
  {
    KidsAre(kids);
    forall k | k in kids && k.Not? ensures k.inner in Excluded(kids) {
      assert k == Not(k.inner);
    }
    forall x | x in Excluded(kids) ensures Eval(Not(x), doc) <==> !Eval(x, doc) {}
  }

  // NOT only directly under an AND that also has another child
  predicate NotsWellPlaced(q: Query)
    decreases q
  {
    match q
    case Word(_) => true
    case Phrase(words) => words != []
    case And(kids) =>
      && (exists k | k in kids :: !k.Not?)
      && (forall k | k in kids :: if k.Not? then NotsWellPlaced(k.inner) else NotsWellPlaced(k))
    case Or(kids) => kids != [] && forall k | k in kids :: NotsWellPlaced(k)
    case Not(_) => false
  }

  // a query is kept whole exactly when its NOTs are well placed
  lemma {:induction false} AnswerableIsWhole(q: Query)
    ensures Answerable(q) == Some(q) <==> NotsWellPlaced(q)
    ensures Answerable(q).Some? ==> !Answerable(q).value.Not?
    decreases q, 0
  {
    match q
    case And(kids) =>
      AnswerableAndIsWhole(kids);
      AndHasContained(kids);
    case Or(kids) => AnswerableOrIsWhole(kids);
    case _ =>
  }

  lemma AndHasContained(kids: seq<Query>)
    ensures Contained(kids) != [] <==> exists k :: k in kids && !k.Not?
  {
    KidsAre(kids);
    if Contained(kids) != [] {
      assert Contained(kids)[0] in Contained(kids);
    }
  }

  lemma {:induction false} AnswerableOrIsWhole(kids: seq<Query>)
    ensures |AnswerableOr(kids)| <= |kids|
    ensures AnswerableOr(kids) == kids <==> forall k :: k in kids ==> NotsWellPlaced(k)
    decreases kids
  {
    if kids != [] {
      var n := |kids| - 1;
      AnswerableOrIsWhole(kids[..n]);
      AnswerableIsWhole(kids[n]);
      assert kids == kids[..n] + [kids[n]];
      PrefixAndLast(kids, AnswerableOr(kids[..n]),
                    match Answerable(kids[n]) case None => [] case Some(q) => [q]);
    }
  }

  lemma PrefixAndLast(kids: seq<Query>, before: seq<Query>, last: seq<Query>)
    requires kids != [] && |before| < |kids| && |last| <= 1
    ensures before + last == kids <==> before == kids[..|kids| - 1] && last == [kids[|kids| - 1]]
  {
    if before + last == kids {
      assert |before| == |kids| - 1;
      assert (before + last)[|kids| - 1] == last[0];
      assert before == (before + last)[..|kids| - 1];
    }
  }

  lemma {:induction false} AnswerableAndIsWhole(kids: seq<Query>)
    ensures |AnswerableAnd(kids)| <= |kids|
    ensures AnswerableAnd(kids) == kids <==>
            forall k :: k in kids ==> if k.Not? then NotsWellPlaced(k.inner) else NotsWellPlaced(k)
    decreases kids
  {
    if kids != [] {
      var n := |kids| - 1;
      AnswerableAndIsWhole(kids[..n]);
      AnswerableKidIsWhole(kids[n]);
      assert kids == kids[..n] + [kids[n]];
      PrefixAndLast(kids, AnswerableAnd(kids[..n]), AnswerableKid(kids[n]));
    }
  }

  lemma {:induction false} AnswerableKidIsWhole(kid: Query)
    ensures AnswerableKid(kid) == [kid] <==>
            if kid.Not? then NotsWellPlaced(kid.inner) else NotsWellPlaced(kid)
    decreases kid, 1
  {
    if kid.Not? {
      AnswerableIsWhole(kid.inner);
    } else {
      AnswerableIsWhole(kid);
    }
  }

  // what is kept is there exactly when the query has something to go by, and holds of exactly
  // the documents that the query finds
  lemma {:induction false} AnswerableFinds(q: Query, doc: Document)
    ensures Answerable(q).Some? <==> HasPositive(q)
    ensures Answerable(q).Some? ==> !Answerable(q).value.Not? && (Eval(Answerable(q).value, doc) <==> Finds(q, doc))
    ensures Finds(q, doc) ==> HasPositive(q)
    decreases q, 2
  {
    hide HasTerm, HasPhrase;
    match q
    case And(kids) => AndFinds(q, kids, doc);
    case Or(kids) => OrFinds(q, kids, doc);
    case _ =>
  }

  // a child of an AND or an OR that is kept, and what it is kept as
  ghost predicate IsKeptAs(k: Query, kept: Query) {
    Answerable(k).Some? && Answerable(k).value == kept
  }

  ghost predicate IsKeptOr(kids: seq<Query>, a: Query) { exists k :: k in kids && IsKeptAs(k, a) }

  ghost predicate IsKeptAnd(kids: seq<Query>, a: Query) { exists k :: k in kids && a in AnswerableKid(k) }

  lemma {:induction false} OrKeeps(kids: seq<Query>)
    ensures forall a :: a in AnswerableOr(kids) <==> IsKeptOr(kids, a)
  {
    hide Answerable;
    if kids != [] {
      var n := |kids| - 1;
      OrKeeps(kids[..n]);
      assert kids == kids[..n] + [kids[n]];
      hide AnswerableOr;
      forall a ensures IsKeptOr(kids, a) <==> IsKeptOr(kids[..n], a) || IsKeptAs(kids[n], a) {
        assert forall k :: k in kids <==> k in kids[..n] || k == kids[n];
      }
    }
  }

  lemma {:induction false} AndKeeps(kids: seq<Query>)
    ensures forall a :: a in AnswerableAnd(kids) <==> IsKeptAnd(kids, a)
  {
    hide AnswerableKid;
    if kids != [] {
      var n := |kids| - 1;
      AndKeeps(kids[..n]);
      assert kids == kids[..n] + [kids[n]];
      forall a ensures IsKeptAnd(kids, a) <==> IsKeptAnd(kids[..n], a) || a in AnswerableKid(kids[n]) {
        assert forall k :: k in kids <==> k in kids[..n] || k == kids[n];
      }
    }
  }

  lemma OrFinds(q: Query, kids: seq<Query>, doc: Document)
    requires q == Or(kids)
    ensures Answerable(q).Some? <==> HasPositive(q)
    ensures Answerable(q).Some? ==> !Answerable(q).value.Not? && (Eval(Answerable(q).value, doc) <==> Finds(q, doc))
    ensures Finds(q, doc) ==> HasPositive(q)
    decreases q, 1
  {
    OrKeeps(kids);
    var kept := AnswerableOr(kids);
    forall k | k in kids
      ensures (Answerable(k).Some? <==> HasPositive(k)) && (Finds(k, doc) ==> HasPositive(k))
      ensures Answerable(k).Some? ==> Answerable(k).value in kept && (Eval(Answerable(k).value, doc) <==> Finds(k, doc))
    {
      AnswerableFinds(k, doc);
      assert Answerable(k).Some? ==> IsKeptAs(k, Answerable(k).value);
    }
    hide AnswerableOr;
    assert kept != [] ==> kept[0] in kept && IsKeptOr(kids, kept[0]);
  }

  lemma AndFinds(q: Query, kids: seq<Query>, doc: Document)
    requires q == And(kids)
    ensures Answerable(q).Some? <==> HasPositive(q)
    ensures Answerable(q).Some? ==> !Answerable(q).value.Not? && (Eval(Answerable(q).value, doc) <==> Finds(q, doc))
    ensures Finds(q, doc) ==> HasPositive(q)
    decreases q, 1
  {
    hide Eval, AnswerableAnd, Contained, KidFinds;
    AndKeeps(kids);
    var kept := AnswerableAnd(kids);
    AndHasContained(kept);
    forall k | k in kids ensures KidFinds(k, kept, doc) {
      var inner := if k.Not? then k.inner else k;
      AnswerableFinds(inner, doc);
      KidIsKept(k, kids, kept, doc);
    }
    SomePositive(kids, kept, doc);
    AllFound(kids, kept, doc);
  }

  lemma SomePositive(kids: seq<Query>, kept: seq<Query>, doc: Document)
    requires forall a :: a in kept <==> IsKeptAnd(kids, a)
    requires forall k :: k in kids ==> KidFinds(k, kept, doc)
    ensures (exists a :: a in kept && !a.Not?) <==> exists k :: k in kids && !k.Not? && HasPositive(k)
  {
    hide Answerable, Eval, Finds;
    if k :| k in kids && !k.Not? && HasPositive(k) {
      assert KidFinds(k, kept, doc);
      assert Answerable(k).value in kept;
    }
    if a :| a in kept && !a.Not? {
      var k :| k in kids && a in AnswerableKid(k);
      assert KidFinds(k, kept, doc);
    }
  }

  lemma AllFound(kids: seq<Query>, kept: seq<Query>, doc: Document)
    requires forall a :: a in kept <==> IsKeptAnd(kids, a)
    requires forall k :: k in kids ==> KidFinds(k, kept, doc)
    ensures Eval(And(kept), doc) <==>
            forall k :: k in kids ==> if k.Not? then !Finds(k.inner, doc) else HasPositive(k) ==> Finds(k, doc)
  {
    hide Answerable, Finds, HasPositive;
    assert Eval(And(kept), doc) <==> forall a :: a in kept ==> Eval(a, doc);
    forall k | k in kids
      ensures (if k.Not? then !Finds(k.inner, doc) else HasPositive(k) ==> Finds(k, doc)) <==>
              forall a :: a in AnswerableKid(k) ==> Eval(a, doc)
    {
      assert KidFinds(k, kept, doc);
      KidMeans(k, kept, doc);
    }
    hide Eval;
    assert forall k, a :: k in kids && a in AnswerableKid(k) ==> IsKeptAnd(kids, a);
  }

  lemma KidMeans(k: Query, kept: seq<Query>, doc: Document)
    requires KidFinds(k, kept, doc)
    ensures (if k.Not? then !Finds(k.inner, doc) else HasPositive(k) ==> Finds(k, doc)) <==>
            forall a :: a in AnswerableKid(k) ==> Eval(a, doc)
  {
    hide Answerable, Finds, HasPositive, HasTerm, HasPhrase;
    var inner := if k.Not? then k.inner else k;
    if Answerable(inner).Some? {
      var a := Answerable(inner).value;
      var kid := if k.Not? then Not(a) else a;
      assert AnswerableKid(k) == [kid];
      assert Eval(Not(a), doc) <==> !Eval(a, doc);
      OneHolds(AnswerableKid(k), kid, doc);
    } else {
      assert AnswerableKid(k) == [];
    }
  }

  lemma OneHolds(qs: seq<Query>, q: Query, doc: Document)
    requires qs == [q]
    ensures (forall a :: a in qs ==> Eval(a, doc)) <==> Eval(q, doc)
  {
    hide Eval;
    assert qs[0] == q && q in qs;
  }

  // what is known of a child of an AND
  ghost predicate KidFinds(k: Query, kept: seq<Query>, doc: Document) {
    var inner := if k.Not? then k.inner else k;
    && (Answerable(inner).Some? <==> HasPositive(inner))
    && (Finds(inner, doc) ==> HasPositive(inner))
    && (Answerable(inner).Some? ==>
          var a := Answerable(inner).value;
          && (Eval(a, doc) <==> Finds(inner, doc))
          && !a.Not?
          && (if k.Not? then Not(a) else a) in kept)
  }

  lemma KidIsKept(k: Query, kids: seq<Query>, kept: seq<Query>, doc: Document)
    requires k in kids && forall a :: a in kept <==> IsKeptAnd(kids, a)
    requires var inner := if k.Not? then k.inner else k;
             && (Answerable(inner).Some? <==> HasPositive(inner))
             && (Finds(inner, doc) ==> HasPositive(inner))
             && (Answerable(inner).Some? ==>
                   !Answerable(inner).value.Not? && (Eval(Answerable(inner).value, doc) <==> Finds(inner, doc)))
    ensures KidFinds(k, kept, doc)
  {
    hide Answerable, Finds, HasPositive, Eval;
    assert forall a :: a in AnswerableKid(k) ==> IsKeptAnd(kids, a);
    var inner := if k.Not? then k.inner else k;
    if Answerable(inner).Some? {
      var a := Answerable(inner).value;
      assert AnswerableKid(k) == [if k.Not? then Not(a) else a];
    }
  }

  // a phrase of one word is that word
  lemma OneWordPhrase(doc: Document, word: string)
    ensures HasPhrase(doc, [word]) <==> HasTerm(doc, word)
  {
    if HasPhrase(doc, [word]) {
      var k, dec :| PhraseAt(doc, [word], k, dec);
      assert doc[k + 0] == Token([word][0], dec);
    }
    if HasTerm(doc, word) {
      var k :| 0 <= k < |doc| && doc[k].term == word;
      assert PhraseAt(doc, [word], k, doc[k].dec);
    }
  }
}
