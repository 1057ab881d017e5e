/** Query normalization: nested ANDs and ORs are flattened, and the stop words of an AND are
    dropped unless nothing else would be left. */
module Normalization {
  import opened Positions
  import opened PhraseReading
  import opened Queries

  predicate IsStopWord(t: string) {
    t in {"a", "an", "and", "or", "but", "the", "is", "are", "was", "were",
          "be", "been", "being", "to", "of", "in", "on", "at", "for", "with",
          "by", "from", "as", "this", "that", "these", "those", "it", "its",
          "if", "then", "so", "do", "does", "did", "has", "have", "had"}
  }

  // the list in full, by length
  lemma StopWordsAre(t: string)
    ensures |t| == 1 ==> (IsStopWord(t) <==> t == "a")
    ensures |t| == 2 ==> (IsStopWord(t) <==> t in ["an", "as", "at", "be", "by", "do", "if", "in", "is", "it", "of",
                                                   "on", "or", "so", "to"])
    ensures |t| == 3 ==> (IsStopWord(t) <==> t in ["and", "are", "but", "did", "for", "had", "has", "its",
                                                   "the", "was"])
    ensures |t| == 4 ==> (IsStopWord(t) <==> t in ["been", "does", "from", "have", "that", "then", "this", "were",
                                                   "with"])
    ensures |t| == 5 ==> (IsStopWord(t) <==> t in ["being", "these", "those"])
    ensures t == "" || |t| > 5 ==> !IsStopWord(t)
  {
  }

  predicate IsStop(q: Query) { q.Word? && IsStopWord(q.term) }

  predicate IsNested(kid: Query, conj: bool) { if conj then kid.And? else kid.Or? }

  // the children of children of the same kind take their parent's place
  function Spliced(kids: seq<Query>, conj: bool): seq<Query> {
    if kids == [] then []
    else
      var last := kids[|kids| - 1];
      Spliced(kids[..|kids| - 1], conj) + if IsNested(last, conj) then last.kids else [last]
  }

  function NonStops(kids: seq<Query>): seq<Query> {
    if kids == [] then []
    else
      var last := kids[|kids| - 1];
      NonStops(kids[..|kids| - 1]) + if IsStop(last) then [] else [last]
  }

  function DropStops(kids: seq<Query>): seq<Query> {
    if exists k :: k in kids && !IsStop(k) then NonStops(kids) else kids
  }

  function Normal(q: Query): Query
    decreases q
  {
    match q
    case And(kids) => And(DropStops(Spliced(NormalAll(kids), true)))
    case Or(kids) => Or(Spliced(NormalAll(kids), false))
    case Not(inner) => Not(Normal(inner))
    case _ => q
  }

  function NormalAll(kids: seq<Query>): (r: seq<Query>)
    ensures |r| == |kids| && forall i :: 0 <= i < |kids| ==> r[i] == Normal(kids[i])
    decreases kids
  {
    if kids == [] then [] else NormalAll(kids[..|kids| - 1]) + [Normal(kids[|kids| - 1])]
  }

  // ---- the pass itself

  method Normalize(node: Query) returns (r: Query)
    ensures r == Normal(node)
    decreases node
  {
    hide IsStop, NonStops, Spliced;
    match node {
      case And(kids) =>
        var normal := NormalizeAll(kids, node);
        var flat := Flatten(normal, true);
        var kept := RemoveStops(flat);
        r := And(kept);
      case Or(kids) =>
        var normal := NormalizeAll(kids, node);
        var flat := Flatten(normal, false);
        r := Or(flat);
      case Not(inner) =>
        var normal := Normalize(inner);
        r := Not(normal);
      case _ => r := node;
    }
  }

  method NormalizeAll(kids: seq<Query>, ghost node: Query) returns (normal: seq<Query>)
    requires forall k :: k in kids ==> k < node
    ensures normal == NormalAll(kids)
    decreases node, 0
  {
    hide Normal;
    normal := [];
    for i := 0 to |kids|
      invariant normal == NormalAll(kids[..i])
    {
      assert kids[i] in kids;
      var kid := Normalize(kids[i]);
      normal := normal + [kid];
      assert kids[..i + 1][..i] == kids[..i];
    }
    assert kids[..|kids|] == kids;
  }

  method Flatten(kids: seq<Query>, conj: bool) returns (flat: seq<Query>)
    ensures flat == Spliced(kids, conj)
  {
    flat := [];
    for i := 0 to |kids|
      invariant flat == Spliced(kids[..i], conj)
    {
      assert kids[..i + 1][..i] == kids[..i];
      var c := kids[i];
      if IsNested(c, conj) {
        flat := flat + c.kids;
      } else {
        flat := flat + [c];
      }
    }
    assert kids[..|kids|] == kids;
  }

  method RemoveStops(kids: seq<Query>) returns (kept: seq<Query>)
    ensures kept == DropStops(kids)
  {
    hide IsStop;
    var anyNonStop := false;
    for i := 0 to |kids|
      invariant !anyNonStop
      invariant forall k :: 0 <= k < i ==> IsStop(kids[k])
    {
      if !IsStop(kids[i]) {
        anyNonStop := true;
        break;
      }
    }
    if !anyNonStop {
      return kids;
    }
    kept := [];
    for i := 0 to |kids|
      invariant kept == NonStops(kids[..i])
    {
      assert kids[..i + 1][..i] == kids[..i];
      if !IsStop(kids[i]) {
        kept := kept + [kids[i]];
      }
    }
    assert kids[..|kids|] == kids;
  }

  // ---- members

  lemma {:induction false} SplicedMembers(kids: seq<Query>, conj: bool)
    ensures forall k :: k in Spliced(kids, conj) <==> IsSpliced(k, kids, conj)
  {
    if kids != [] {
      var n := |kids| - 1;
      SplicedMembers(kids[..n], conj);
      assert kids == kids[..n] + [kids[n]];
      forall k ensures k in Spliced(kids, conj) <==> IsSpliced(k, kids, conj) {
        SplicedFromLast(k, kids, conj);
      }
    }
  }

  ghost predicate IsSpliced(k: Query, kids: seq<Query>, conj: bool) {
    (k in kids && !IsNested(k, conj)) || exists c :: c in kids && IsNested(c, conj) && k in c.kids
  }

  lemma SplicedFromLast(k: Query, kids: seq<Query>, conj: bool)
    requires kids != []
    ensures IsSpliced(k, kids, conj) <==>
            || IsSpliced(k, kids[..|kids| - 1], conj)
            || (var last := kids[|kids| - 1]; if IsNested(last, conj) then k in last.kids else k == last)
  {
    var n := |kids| - 1;
    assert kids == kids[..n] + [kids[n]];
  }

  lemma {:induction false} NonStopMembers(kids: seq<Query>)
    ensures forall k :: k in NonStops(kids) <==> k in kids && !IsStop(k)
  {
    hide IsStop;
    if kids != [] {
      var n := |kids| - 1;
      NonStopMembers(kids[..n]);
      assert kids == kids[..n] + [kids[n]];
    }
  }

  // stop words alone stay, otherwise none does; an AND that has children keeps some
  lemma DropStopsMembers(kids: seq<Query>)
    ensures forall k :: k in DropStops(kids) <==>
              k in kids && (!IsStop(k) || forall j :: j in kids ==> IsStop(j))
    ensures DropStops(kids) == [] <==> kids == []
  {
    hide IsStop;
    NonStopMembers(kids);
    if exists k :: k in kids && !IsStop(k) {
      var k :| k in kids && !IsStop(k);
      assert k in NonStops(kids);
    }
  }

  // ---- the normal form

  predicate IsNormal(q: Query)
    decreases q
  {
    match q
    case And(kids) =>
      && (forall k :: k in kids ==> IsNormal(k) && !k.And?)
      && ((forall k :: k in kids ==> IsStop(k)) || (forall k :: k in kids ==> !IsStop(k)))
    case Or(kids) => forall k :: k in kids ==> IsNormal(k) && !k.Or?
    case Not(inner) => IsNormal(inner)
    case _ => true
  }

  // no AND under an AND, no OR under an OR, no stop word beside anything else in an AND
  lemma {:induction false} NormalIsNormal(q: Query)
    ensures IsNormal(Normal(q))
    decreases q
  {
    hide IsStop, Spliced, DropStops;
    match q {
      case And(kids) =>
        NormalKids(kids, q);
        SplicedIsNormal(NormalAll(kids), true);
        DropStopsMembers(Spliced(NormalAll(kids), true));
      case Or(kids) =>
        NormalKids(kids, q);
        SplicedIsNormal(NormalAll(kids), false);
      case Not(inner) => NormalIsNormal(inner);
      case _ =>
    }
  }

  lemma {:induction false} NormalKids(kids: seq<Query>, q: Query)
    requires forall k :: k in kids ==> k < q
    ensures forall k :: k in NormalAll(kids) ==> IsNormal(k)
    decreases q, 0
  {
    hide Normal, IsNormal;
    forall i | 0 <= i < |kids| ensures IsNormal(NormalAll(kids)[i]) {
      assert kids[i] in kids;
      NormalIsNormal(kids[i]);
    }
  }

  lemma SplicedIsNormal(kids: seq<Query>, conj: bool)
    requires forall k :: k in kids ==> IsNormal(k)
    ensures forall k :: k in Spliced(kids, conj) ==> IsNormal(k) && !IsNested(k, conj)
  {
    hide Spliced, IsStop;
    SplicedMembers(kids, conj);
  }

  lemma {:induction false} NormalStays(q: Query)
    requires IsNormal(q)
    ensures Normal(q) == q
    decreases q
  {
    hide IsStop, Spliced, DropStops;
    match q {
      case And(kids) =>
        KidsStay(kids, q);
        NothingToSplice(kids, true);
        NothingToDrop(kids);
      case Or(kids) =>
        KidsStay(kids, q);
        NothingToSplice(kids, false);
      case Not(inner) => NormalStays(inner);
      case _ =>
    }
  }

  lemma {:induction false} KidsStay(kids: seq<Query>, q: Query)
    requires forall k :: k in kids ==> k < q && IsNormal(k)
    ensures NormalAll(kids) == kids
    decreases q, 0
  {
    hide Normal, IsNormal;
    forall i | 0 <= i < |kids| ensures NormalAll(kids)[i] == kids[i] {
      assert kids[i] in kids;
      NormalStays(kids[i]);
    }
  }

  lemma {:induction false} NothingToSplice(kids: seq<Query>, conj: bool)
    requires forall k :: k in kids ==> !IsNested(k, conj)
    ensures Spliced(kids, conj) == kids
  {
    if kids != [] {
      var n := |kids| - 1;
      NothingToSplice(kids[..n], conj);
      assert kids == kids[..n] + [kids[n]];
    }
  }

  lemma {:induction false} NothingToDrop(kids: seq<Query>)
    requires (forall k :: k in kids ==> IsStop(k)) || (forall k :: k in kids ==> !IsStop(k))
    ensures DropStops(kids) == kids
  {
    hide IsStop;
    if kids != [] && forall k :: k in kids ==> !IsStop(k) {
      AllNonStops(kids);
    }
  }

  lemma {:induction false} AllNonStops(kids: seq<Query>)
    requires forall k :: k in kids ==> !IsStop(k)
    ensures NonStops(kids) == kids
  {
    hide IsStop;
    if kids != [] {
      var n := |kids| - 1;
      AllNonStops(kids[..n]);
      assert kids == kids[..n] + [kids[n]];
    }
  }

  lemma NormalizeIsIdempotent(q: Query)
    ensures Normal(Normal(q)) == Normal(q)
  {
    hide Normal, IsNormal;
    NormalIsNormal(q);
    NormalStays(Normal(q));
  }

  // ---- no operator loses its last operand

  predicate HasOperands(q: Query)
    decreases q
  {
    match q
    case And(kids) => kids != [] && forall k :: k in kids ==> HasOperands(k)
    case Or(kids) => kids != [] && forall k :: k in kids ==> HasOperands(k)
    case Not(inner) => HasOperands(inner)
    case _ => true
  }

  lemma {:induction false} NormalHasOperands(q: Query)
    requires HasOperands(q)
    ensures HasOperands(Normal(q))
    decreases q
  {
    hide IsStop, Spliced, DropStops;
    match q {
      case And(kids) =>
        KidsHaveOperands(kids, q);
        SplicedHasOperands(NormalAll(kids), true);
        DropStopsMembers(Spliced(NormalAll(kids), true));
      case Or(kids) =>
        KidsHaveOperands(kids, q);
        SplicedHasOperands(NormalAll(kids), false);
      case Not(inner) => NormalHasOperands(inner);
      case _ =>
    }
  }

  lemma {:induction false} KidsHaveOperands(kids: seq<Query>, q: Query)
    requires forall k :: k in kids ==> k < q && HasOperands(k)
    ensures forall k :: k in NormalAll(kids) ==> HasOperands(k)
    decreases q, 0
  {
    hide Normal, HasOperands;
    forall i | 0 <= i < |kids| ensures HasOperands(NormalAll(kids)[i]) {
      assert kids[i] in kids;
      NormalHasOperands(kids[i]);
    }
  }

  lemma SplicedHasOperands(kids: seq<Query>, conj: bool)
    requires kids != [] && forall k :: k in kids ==> HasOperands(k)
    ensures Spliced(kids, conj) != [] && forall k :: k in Spliced(kids, conj) ==> HasOperands(k)
  {
    SplicedMembers(kids, conj);
    var last := kids[|kids| - 1];
    assert last in kids;
  }

  // ---- meaning

  // flattening one level keeps the meaning
  lemma SplicedMeans(kids: seq<Query>, doc: Document)
    ensures Eval(And(Spliced(kids, true)), doc) <==> Eval(And(kids), doc)
    ensures Eval(Or(Spliced(kids, false)), doc) <==> Eval(Or(kids), doc)
  {
    hide Spliced, HasTerm, HasPhrase;
    SplicedMembers(kids, true);
    SplicedMembers(kids, false);
    AndSplicedMeans(kids, Spliced(kids, true), doc);
    OrSplicedMeans(kids, Spliced(kids, false), doc);
  }

  lemma AndSplicedMeans(kids: seq<Query>, flat: seq<Query>, doc: Document)
    requires forall k :: k in flat <==> IsSpliced(k, kids, true)
    ensures Eval(And(flat), doc) <==> Eval(And(kids), doc)
  {
    hide HasTerm, HasPhrase;
    if Eval(And(flat), doc) {
      forall k | k in kids ensures Eval(k, doc) {
        if k.And? {
          forall g | g in k.kids ensures Eval(g, doc) { assert g in flat; }
        } else {
          assert k in flat;
        }
      }
    }
    if Eval(And(kids), doc) {
      forall k | k in flat ensures Eval(k, doc) {
        if !(k in kids && !k.And?) {
          var c :| c in kids && c.And? && k in c.kids;
          assert Eval(c, doc);
        }
      }
    }
  }

  lemma OrSplicedMeans(kids: seq<Query>, flat: seq<Query>, doc: Document)
    requires forall k :: k in flat <==> IsSpliced(k, kids, false)
    ensures Eval(Or(flat), doc) <==> Eval(Or(kids), doc)
  {
    hide HasTerm, HasPhrase;
    forall k | k in kids && Eval(k, doc) ensures Eval(Or(flat), doc) {
      if k.Or? {
        var g :| g in k.kids && Eval(g, doc);
        assert g in flat;
      } else {
        assert k in flat;
      }
    }
    forall k | k in flat && Eval(k, doc) ensures Eval(Or(kids), doc) {
      if !(k in kids && !k.Or?) {
        var c :| c in kids && c.Or? && k in c.kids;
        assert Eval(c, doc);
      }
    }
  }

  predicate IsNotFree(q: Query)
    decreases q
  {
    match q
    case And(kids) => forall k :: k in kids ==> IsNotFree(k)
    case Or(kids) => forall k :: k in kids ==> IsNotFree(k)
    case Not(_) => false
    case _ => true
  }

  // without NOT, normalization loses no document
  lemma {:induction false} NormalEnlarges(q: Query, doc: Document)
    requires IsNotFree(q) && Eval(q, doc)
    ensures Eval(Normal(q), doc)
    decreases q
  {
    hide IsStop, Spliced, DropStops, HasTerm, HasPhrase;
    match q {
      case And(kids) =>
        var normal := NormalAll(kids);
        forall i | 0 <= i < |kids| ensures Eval(normal[i], doc) {
          assert kids[i] in kids;
          NormalEnlarges(kids[i], doc);
        }
        SplicedMeans(normal, doc);
        DropStopsMembers(Spliced(normal, true));
      case Or(kids) =>
        var k :| k in kids && Eval(k, doc);
        var i :| 0 <= i < |kids| && kids[i] == k;
        NormalEnlarges(kids[i], doc);
        assert NormalAll(kids)[i] in NormalAll(kids);
        SplicedMeans(NormalAll(kids), doc);
      case _ =>
    }
  }
}
