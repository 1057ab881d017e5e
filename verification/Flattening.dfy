/** Normalization taken apart: flattening everywhere, which keeps every meaning, then dropping
    stop words, which may take away what an AND with a NOT goes by. */
module Flattening {
  import opened Positions
  import opened PhraseReading
  import opened Queries
  import opened Normalization

  function Flat(q: Query): Query
    decreases q
  {
    match q
    case And(kids) => And(Spliced(FlatAll(kids), true))
    case Or(kids) => Or(Spliced(FlatAll(kids), false))
    case Not(inner) => Not(Flat(inner))
    case _ => q
  }

  function FlatAll(kids: seq<Query>): (r: seq<Query>)
    ensures |r| == |kids| && forall i :: 0 <= i < |kids| ==> r[i] == Flat(kids[i])
    decreases kids
  {
    if kids == [] then [] else FlatAll(kids[..|kids| - 1]) + [Flat(kids[|kids| - 1])]
  }

  function Dropped(q: Query): Query
    decreases q
  {
    match q
    case And(kids) => And(DropStops(DroppedAll(kids)))
    case Or(kids) => Or(DroppedAll(kids))
    case Not(inner) => Not(Dropped(inner))
    case _ => q
  }

  function DroppedAll(kids: seq<Query>): (r: seq<Query>)
    ensures |r| == |kids| && forall i :: 0 <= i < |kids| ==> r[i] == Dropped(kids[i])
    decreases kids
  {
    if kids == [] then [] else DroppedAll(kids[..|kids| - 1]) + [Dropped(kids[|kids| - 1])]
  }

  // flattening keeps the meaning of every query on every document
  lemma {:induction false} FlatMeans(q: Query, doc: Document)
    ensures Eval(Flat(q), doc) <==> Eval(q, doc)
    decreases q
  {
    hide Spliced, HasTerm, HasPhrase;
    match q {
      case And(kids) =>
        FlatKidsMean(kids, q, doc);
        SplicedMeans(FlatAll(kids), doc);
        AllMean(kids, FlatAll(kids), doc);
      case Or(kids) =>
        FlatKidsMean(kids, q, doc);
        SplicedMeans(FlatAll(kids), doc);
        SomeMeans(kids, FlatAll(kids), doc);
      case Not(inner) => FlatMeans(inner, doc);
      case _ =>
    }
  }

  lemma {:induction false} FlatKidsMean(kids: seq<Query>, q: Query, doc: Document)
    requires forall k :: k in kids ==> k < q
    ensures forall i :: 0 <= i < |kids| ==> (Eval(FlatAll(kids)[i], doc) <==> Eval(kids[i], doc))
    decreases q, 0
  {
    hide Flat, Eval;
    forall i | 0 <= i < |kids| ensures Eval(FlatAll(kids)[i], doc) <==> Eval(kids[i], doc) {
      assert kids[i] in kids;
      FlatMeans(kids[i], doc);
    }
  }

  lemma AllMean(kids: seq<Query>, others: seq<Query>, doc: Document)
    requires |kids| == |others| && forall i :: 0 <= i < |kids| ==> (Eval(others[i], doc) <==> Eval(kids[i], doc))
    ensures Eval(And(others), doc) <==> Eval(And(kids), doc)
  {
    assert forall i :: 0 <= i < |kids| ==> kids[i] in kids && others[i] in others;
  }

  lemma SomeMeans(kids: seq<Query>, others: seq<Query>, doc: Document)
    requires |kids| == |others| && forall i :: 0 <= i < |kids| ==> (Eval(others[i], doc) <==> Eval(kids[i], doc))
    ensures Eval(Or(others), doc) <==> Eval(Or(kids), doc)
  {
    assert forall i :: 0 <= i < |kids| ==> kids[i] in kids && others[i] in others;
  }

  // ---- the one pass is flattening followed by dropping

  lemma {:induction false} NonStopsConcat(a: seq<Query>, b: seq<Query>)
    ensures NonStops(a + b) == NonStops(a) + NonStops(b)
  {
    hide IsStop;
    if b == [] {
      assert a + b == a && NonStops(a) + [] == NonStops(a);
    } else {
      var n := |b| - 1;
      NonStopsConcat(a, b[..n]);
      assert (a + b)[..|a| + n] == a + b[..n];
      var tail := if IsStop(b[n]) then [] else [b[n]];
      assert NonStops(a) + (NonStops(b[..n]) + tail) == NonStops(a) + NonStops(b[..n]) + tail;
    }
  }

  lemma NonStopsOfDropped(kids: seq<Query>)
    ensures NonStops(DropStops(kids)) == NonStops(kids)
  {
    hide IsStop;
    NonStopMembers(kids);
    AllNonStops(NonStops(kids));
  }

  lemma NoNonStops(kids: seq<Query>)
    ensures NonStops(kids) == [] <==> forall k :: k in kids ==> IsStop(k)
    ensures DropStops(kids) == if NonStops(kids) == [] then kids else NonStops(kids)
  {
    hide IsStop;
    NonStopMembers(kids);
    if NonStops(kids) != [] {
      assert NonStops(kids)[0] in NonStops(kids);
    }
  }

  lemma DroppedKind(q: Query)
    ensures IsStop(Dropped(q)) == IsStop(q) && Dropped(q).And? == q.And? && Dropped(q).Or? == q.Or?
    ensures Dropped(q).Not? == q.Not?
  {
    hide IsStopWord;
  }

  // splicing before or after dropping leaves the same words, but for stop words among others
  ghost predicate SameButStops(a: seq<Query>, b: seq<Query>) {
    NonStops(a) == NonStops(b) && (NonStops(a) == [] ==> a == b)
  }

  lemma SameButStopsDropSame(a: seq<Query>, b: seq<Query>)
    requires SameButStops(a, b)
    ensures DropStops(a) == DropStops(b)
  {
    hide IsStop, NonStops;
    NoNonStops(a);
    NoNonStops(b);
  }

  lemma SameButStopsConcat(a: seq<Query>, b: seq<Query>, c: seq<Query>, d: seq<Query>)
    requires SameButStops(a, b) && SameButStops(c, d)
    ensures SameButStops(a + c, b + d)
  {
    hide NonStops;
    NonStopsConcat(a, c);
    NonStopsConcat(b, d);
  }

  lemma SameButStopsDropped(kids: seq<Query>)
    ensures SameButStops(DropStops(kids), kids)
  {
    hide IsStop, NonStops;
    NonStopsOfDropped(kids);
    NoNonStops(kids);
  }

  lemma {:induction false} DroppedAllConcat(a: seq<Query>, b: seq<Query>)
    ensures DroppedAll(a + b) == DroppedAll(a) + DroppedAll(b)
  {
    hide Dropped;
  }

  lemma {:induction false} SplicedAndDropped(kids: seq<Query>)
    ensures SameButStops(Spliced(DroppedAll(kids), true), DroppedAll(Spliced(kids, true)))
  {
    hide IsStop, NonStops, SameButStops;
    if kids == [] {
      NothingIsSame();
    } else {
      var n := |kids| - 1;
      var last := kids[n];
      SplicedAndDropped(kids[..n]);
      assert DroppedAll(kids)[..n] == DroppedAll(kids[..n]);
      var a, b := Spliced(DroppedAll(kids[..n]), true), DroppedAll(Spliced(kids[..n], true));
      DroppedKind(last);
      if last.And? {
        SameButStopsDropped(DroppedAll(last.kids));
        SameButStopsConcat(a, b, Dropped(last).kids, DroppedAll(last.kids));
        DroppedAllConcat(Spliced(kids[..n], true), last.kids);
      } else {
        SameIsSame([Dropped(last)]);
        SameButStopsConcat(a, b, [Dropped(last)], [Dropped(last)]);
        DroppedAllConcat(Spliced(kids[..n], true), [last]);
        assert DroppedAll([last]) == [Dropped(last)];
      }
    }
  }

  lemma NothingIsSame()
    ensures SameButStops(Spliced(DroppedAll([]), true), DroppedAll(Spliced([], true)))
  {
  }

  lemma SameIsSame(a: seq<Query>)
    ensures SameButStops(a, a)
  {
  }

  lemma {:induction false} OrSplicedAndDropped(kids: seq<Query>)
    ensures Spliced(DroppedAll(kids), false) == DroppedAll(Spliced(kids, false))
  {
    hide IsStop;
    if kids != [] {
      var n := |kids| - 1;
      var last := kids[n];
      OrSplicedAndDropped(kids[..n]);
      assert DroppedAll(kids)[..n] == DroppedAll(kids[..n]);
      DroppedKind(last);
      DroppedAllConcat(Spliced(kids[..n], false), if last.Or? then last.kids else [last]);
    }
  }

  lemma {:induction false} NormalIsFlatThenDropped(q: Query)
    ensures Normal(q) == Dropped(Flat(q))
    decreases q
  {
    hide IsStop, Spliced, DropStops;
    match q {
      case And(kids) =>
        KidsFlatThenDropped(kids, q);
        SplicedAndDropped(FlatAll(kids));
        SameButStopsDropSame(Spliced(DroppedAll(FlatAll(kids)), true), DroppedAll(Spliced(FlatAll(kids), true)));
      case Or(kids) =>
        KidsFlatThenDropped(kids, q);
        OrSplicedAndDropped(FlatAll(kids));
      case Not(inner) => NormalIsFlatThenDropped(inner);
      case _ =>
    }
  }

  lemma {:induction false} KidsFlatThenDropped(kids: seq<Query>, q: Query)
    requires forall k :: k in kids ==> k < q
    ensures NormalAll(kids) == DroppedAll(FlatAll(kids))
    decreases q, 0
  {
    hide Normal, Flat, Dropped;
    forall i | 0 <= i < |kids| ensures NormalAll(kids)[i] == DroppedAll(FlatAll(kids))[i] {
      assert kids[i] in kids;
      NormalIsFlatThenDropped(kids[i]);
    }
  }

  // ---- NOTs stay well placed

  lemma {:induction false} FlatIsWellPlaced(q: Query)
    requires NotsWellPlaced(q)
    ensures NotsWellPlaced(Flat(q)) && Flat(q).Not? == q.Not?
    decreases q
  {
    hide Spliced;
    match q {
      case And(kids) =>
        forall i | 0 <= i < |kids| ensures IsPlacedKid(FlatAll(kids)[i]) && FlatAll(kids)[i].Not? == kids[i].Not? {
          assert kids[i] in kids;
          if kids[i].Not? {
            FlatIsWellPlaced(kids[i].inner);
          } else {
            FlatIsWellPlaced(kids[i]);
          }
        }
        var k :| k in kids && !k.Not?;
        var i :| 0 <= i < |kids| && kids[i] == k;
        AndSplicedWellPlaced(FlatAll(kids), FlatAll(kids)[i]);
      case Or(kids) =>
        forall i | 0 <= i < |kids| ensures NotsWellPlaced(FlatAll(kids)[i]) {
          assert kids[i] in kids;
          FlatIsWellPlaced(kids[i]);
        }
        OrSplicedWellPlaced(FlatAll(kids));
      case _ =>
    }
  }

  predicate IsPlacedKid(k: Query) { if k.Not? then NotsWellPlaced(k.inner) else NotsWellPlaced(k) }

  lemma AndSplicedWellPlaced(kids: seq<Query>, anchor: Query)
    requires forall k :: k in kids ==> IsPlacedKid(k)
    requires anchor in kids && !anchor.Not?
    ensures NotsWellPlaced(And(Spliced(kids, true)))
  {
    hide Spliced;
    var flat := Spliced(kids, true);
    SplicedMembers(kids, true);
    if anchor.And? {
      var k :| k in anchor.kids && !k.Not?;
      assert k in flat;
    } else {
      assert anchor in flat;
    }
    forall k | k in flat ensures IsPlacedKid(k) {
      if !(k in kids) {
        var c :| c in kids && c.And? && k in c.kids;
        assert IsPlacedKid(c);
      }
    }
  }

  lemma OrSplicedWellPlaced(kids: seq<Query>)
    requires kids != [] && forall k :: k in kids ==> NotsWellPlaced(k)
    ensures NotsWellPlaced(Or(Spliced(kids, false)))
  {
    hide Spliced;
    SplicedMembers(kids, false);
    assert kids[0] in kids;
    if kids[0].Or? {
      assert kids[0].kids[0] in Spliced(kids, false);
    } else {
      assert kids[0] in Spliced(kids, false);
    }
  }

  // every AND keeps something to go by: a child that is neither a NOT nor a stop word, or
  // nothing but stop words
  predicate KeepsAnchors(q: Query)
    decreases q
  {
    match q
    case And(kids) =>
      && ((exists k :: k in kids && !k.Not? && !IsStop(k)) || forall k :: k in kids ==> IsStop(k))
      && (forall k :: k in kids ==> KeepsAnchors(k))
    case Or(kids) => forall k :: k in kids ==> KeepsAnchors(k)
    case Not(inner) => KeepsAnchors(inner)
    case _ => true
  }

  lemma {:induction false} DroppedIsWellPlaced(q: Query)
    requires NotsWellPlaced(q)
    ensures NotsWellPlaced(Dropped(q)) <==> KeepsAnchors(q)
    decreases q
  {
    hide IsStop, DropStops;
    match q {
      case And(kids) =>
        forall i | 0 <= i < |kids| ensures IsPlacedKid(DroppedAll(kids)[i]) <==> KeepsAnchors(kids[i]) {
          assert kids[i] in kids;
          DroppedKind(kids[i]);
          if kids[i].Not? {
            DroppedIsWellPlaced(kids[i].inner);
          } else {
            DroppedIsWellPlaced(kids[i]);
          }
        }
        AndDroppedWellPlaced(kids);
      case Or(kids) =>
        forall i | 0 <= i < |kids| ensures NotsWellPlaced(DroppedAll(kids)[i]) <==> KeepsAnchors(kids[i]) {
          assert kids[i] in kids;
          DroppedIsWellPlaced(kids[i]);
        }
        OrDroppedWellPlaced(kids, DroppedAll(kids));
      case _ =>
    }
  }

  lemma OrDroppedWellPlaced(kids: seq<Query>, dropped: seq<Query>)
    requires |dropped| == |kids| > 0
    requires forall i :: 0 <= i < |kids| ==> (NotsWellPlaced(dropped[i]) <==> KeepsAnchors(kids[i]))
    ensures NotsWellPlaced(Or(dropped)) <==> KeepsAnchors(Or(kids))
  {
    assert forall i :: 0 <= i < |kids| ==> kids[i] in kids && dropped[i] in dropped;
  }

  lemma AndDroppedWellPlaced(kids: seq<Query>)
    requires exists k :: k in kids && !k.Not?
    requires forall i :: 0 <= i < |kids| ==> (IsPlacedKid(DroppedAll(kids)[i]) <==> KeepsAnchors(kids[i]))
    ensures NotsWellPlaced(And(DropStops(DroppedAll(kids)))) <==> KeepsAnchors(And(kids))
  {
    hide IsStop, DropStops, Dropped, NotsWellPlaced, KeepsAnchors, IsPlacedKid, HasAnchor;
    var dropped := DroppedAll(kids);
    AnchorsOf(kids);
    forall i | 0 <= i < |kids|
      ensures IsStop(dropped[i]) == IsStop(kids[i]) && dropped[i].Not? == kids[i].Not?
    {
      DroppedKind(kids[i]);
    }
    DropStopsMembers(dropped);
    SameAnchors(kids, dropped);
    KeptAnchors(dropped);
  }

  ghost predicate HasAnchor(kids: seq<Query>) {
    (exists k :: k in kids && !k.Not? && !IsStop(k)) || forall k :: k in kids ==> IsStop(k)
  }

  lemma AnchorsOf(kids: seq<Query>)
    ensures KeepsAnchors(And(kids)) <==> HasAnchor(kids) && forall k :: k in kids ==> KeepsAnchors(k)
  {
    hide IsStop;
  }

  lemma SameAnchors(kids: seq<Query>, dropped: seq<Query>)
    requires |dropped| == |kids|
    requires forall i :: 0 <= i < |kids| ==>
               && (IsPlacedKid(dropped[i]) <==> KeepsAnchors(kids[i]))
               && IsStop(dropped[i]) == IsStop(kids[i]) && dropped[i].Not? == kids[i].Not?
    ensures HasAnchor(kids) <==> HasAnchor(dropped)
    ensures (exists k :: k in kids && !k.Not?) <==> (exists k :: k in dropped && !k.Not?)
    ensures (forall k :: k in kids ==> KeepsAnchors(k)) <==> (forall k :: k in dropped ==> IsPlacedKid(k))
  {
    hide IsStop, IsPlacedKid, KeepsAnchors;
    assert forall i :: 0 <= i < |kids| ==> kids[i] in kids && dropped[i] in dropped;
  }

  lemma KeptAnchors(kids: seq<Query>)
    requires exists k :: k in kids && !k.Not?
    requires forall k :: k in DropStops(kids) <==> k in kids && (!IsStop(k) || forall j :: j in kids ==> IsStop(j))
    ensures NotsWellPlaced(And(DropStops(kids))) <==> HasAnchor(kids) && forall k :: k in kids ==> IsPlacedKid(k)
  {
    hide DropStops, IsStopWord;
    var kept := DropStops(kids);
    forall k | k in kids && IsStop(k) ensures IsPlacedKid(k) && !k.Not? {}
    assert NotsWellPlaced(And(kept)) <==>
           (exists k :: k in kept && !k.Not?) && forall k :: k in kept ==> IsPlacedKid(k);
    if HasAnchor(kids) {
      if forall k :: k in kids ==> IsStop(k) {
        var k :| k in kids && !k.Not?;
        assert k in kept;
      } else {
        var k :| k in kids && !k.Not? && !IsStop(k);
        assert k in kept;
      }
    }
  }

  // a query with well-placed NOTs stays so exactly when each AND of its flat form keeps
  // something to go by
  lemma NormalIsWellPlaced(q: Query)
    requires NotsWellPlaced(q)
    ensures NotsWellPlaced(Normal(q)) <==> KeepsAnchors(Flat(q))
  {
    hide Normal, Flat, Dropped, NotsWellPlaced, KeepsAnchors;
    NormalIsFlatThenDropped(q);
    FlatIsWellPlaced(q);
    DroppedIsWellPlaced(Flat(q));
  }

  // "the -x": once the stop word is dropped, there is nothing left to answer
  lemma StopWordWasTheAnchor(x: string)
    ensures var q := And([Word("the"), Not(Word(x))]);
            NotsWellPlaced(q) && Normal(q) == And([Not(Word(x))]) && Answerable(Normal(q)).None?
  {
    hide Normal;
    var kids := [Word("the"), Not(Word(x))];
    assert kids[0] in kids && kids[1] in kids;
    StopWordDrops(kids, x);
    LoneNotIsUnanswerable(x);
  }

  lemma LoneNotIsUnanswerable(x: string)
    ensures Answerable(And([Not(Word(x))])).None?
  {
    assert [Not(Word(x))][..0] == [] && AnswerableKid(Not(Word(x))) == [Not(Word(x))];
    assert AnswerableAnd([Not(Word(x))]) == [Not(Word(x))];
    assert Contained([Not(Word(x))]) == [];
  }

  lemma StopWordDrops(kids: seq<Query>, x: string)
    requires kids == [Word("the"), Not(Word(x))]
    ensures Normal(And(kids)) == And([Not(Word(x))])
  {
    hide IsStopWord;
    assert IsStopWord("the") by { TheIsAStopWord(); }
    assert Normal(kids[0]) == kids[0];
    assert Normal(kids[1]) == Not(Normal(Word(x)));
    assert NormalAll(kids) == kids;
    NothingToSplice(kids, true);
    assert kids[1] in kids && !IsStop(kids[1]);
    assert kids[..1] == [Word("the")] && kids[..1][..0] == [];
    assert NonStops(kids[..1]) == [];
  }

  lemma TheIsAStopWord()
    ensures IsStopWord("the")
  {
  }
}
