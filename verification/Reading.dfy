/** What a query finds, read off its derivation: rows of operands, stop words left out where
    something else stays, and NOTs that only take away. The compiled query finds exactly that. */
module Readings {
  import opened Text
  import opened Pages
  import opened Queries
  import opened Normalization
  import opened Flattening
  import opened Grammar
  import opened Engine

  // ---- on trees: an AND is read by its operands, those of nested ANDs included

  ghost function Operands(t: Query): (r: seq<Query>)
    ensures forall o :: o in r ==> !o.And? && (t.And? ==> o < t)
    ensures !t.And? ==> r == [t]
    decreases t, 1
  {
    if t.And? then OperandsOf(t.kids) else [t]
  }

  ghost function OperandsOf(kids: seq<Query>): (r: seq<Query>)
    ensures forall o :: o in r ==> !o.And? && exists k :: k in kids && (o == k || o < k)
    decreases kids, 0
  {
    if kids == [] then []
    else
      var n := |kids| - 1;
      assert forall k :: k in kids[..n] ==> k in kids;
      assert kids[n] in kids;
      OperandsOf(kids[..n]) + Operands(kids[n])
  }

  // a stop word does not count beside anything else
  ghost predicate Counts(o: Query, all: seq<Query>) {
    IsStop(o) ==> forall x :: x in all ==> IsStop(x)
  }

  ghost predicate IsPositive(t: Query)
    decreases t
  {
    match t
    case Word(_) => true
    case Phrase(words) => words != []
    case And(_) => exists o | o in Operands(t) :: Counts(o, Operands(t)) && !o.Not? && IsPositive(o)
    case Or(kids) => exists k | k in kids :: IsPositive(k)
    case Not(_) => false
  }

  ghost predicate IsWanted(t: Query, page: Page)
    decreases t
  {
    match t
    case Word(_) => Found(t, page)
    case Phrase(_) => Found(t, page)
    case And(_) =>
      && (exists o | o in Operands(t) :: Counts(o, Operands(t)) && !o.Not? && IsPositive(o))
      && (forall o | o in Operands(t) :: Counts(o, Operands(t)) ==>
            if o.Not? then !IsWanted(o.inner, page) else IsPositive(o) ==> IsWanted(o, page))
    case Or(kids) => exists k | k in kids :: IsWanted(k, page)
    case Not(_) => false
  }

  // ---- the normal form finds what is wanted

  lemma FlatConcat(a: seq<Query>, b: seq<Query>)
    ensures FlatAll(a + b) == FlatAll(a) + FlatAll(b)
  {
    hide Flat;
  }

  lemma {:induction false} FlatOperands(kids: seq<Query>)
    ensures Spliced(FlatAll(kids), true) == FlatAll(OperandsOf(kids))
    decreases kids
  {
    if kids != [] {
      var n := |kids| - 1;
      var last := kids[n];
      FlatOperands(kids[..n]);
      if last.And? {
        FlatOperands(last.kids);
      }
      FlatConcat(OperandsOf(kids[..n]), Operands(last));
      assert FlatAll(kids)[..n] == FlatAll(kids[..n]);
      hide OperandsOf;
      assert last.And? ==> Flat(last).kids == FlatAll(OperandsOf(last.kids));
      assert !last.And? ==> FlatAll([last]) == [Flat(last)];
    }
  }

  lemma StopStays(o: Query)
    ensures IsStop(Normal(o)) <==> IsStop(o)
    ensures Normal(o).Not? <==> o.Not?
    ensures o.Not? ==> Normal(o).inner == Normal(o.inner)
  {
    hide IsStopWord, Spliced, DropStops;
  }

  // what is left of an AND: its operands that count
  ghost predicate IsLeft(k: Query, all: seq<Query>) {
    exists o :: o in all && Counts(o, all) && k == Normal(o)
  }

  lemma NormalOperands(kids: seq<Query>)
    ensures forall k :: k in Normal(And(kids)).kids <==> IsLeft(k, OperandsOf(kids))
  {
    hide Normal, IsStop, Spliced, DropStops, OperandsOf;
    var all := OperandsOf(kids);
    var list := DroppedAll(FlatAll(all));
    NormalIsFlatThenDropped(And(kids));
    FlatOperands(kids);
    assert Normal(And(kids)) == And(DropStops(list));
    DropStopsMembers(list);
    forall i | 0 <= i < |all| ensures list[i] == Normal(all[i]) && (IsStop(list[i]) <==> IsStop(all[i])) {
      NormalIsFlatThenDropped(all[i]);
      StopStays(all[i]);
    }
    hide Flat, Dropped, DroppedAll, FlatAll;
    SameStops(list, all);
  }

  lemma SameStops(list: seq<Query>, all: seq<Query>)
    requires |list| == |all|
    requires forall i :: 0 <= i < |all| ==> list[i] == Normal(all[i]) && (IsStop(list[i]) <==> IsStop(all[i]))
    ensures forall k :: (k in list && (!IsStop(k) || forall j :: j in list ==> IsStop(j))) <==> IsLeft(k, all)
  {
    hide Normal, IsStop;
    assert (forall j :: j in list ==> IsStop(j)) <==> (forall x :: x in all ==> IsStop(x)) by {
      forall i | 0 <= i < |all| ensures list[i] in list && all[i] in all {}
    }
    forall k | k in list && (!IsStop(k) || forall j :: j in list ==> IsStop(j)) ensures IsLeft(k, all) {
      var i :| 0 <= i < |list| && list[i] == k;
      assert all[i] in all && Counts(all[i], all);
    }
    forall k | IsLeft(k, all) ensures k in list && (!IsStop(k) || forall j :: j in list ==> IsStop(j)) {
      var o :| o in all && Counts(o, all) && k == Normal(o);
      var i :| 0 <= i < |all| && all[i] == o;
      assert list[i] == k;
    }
  }

  lemma {:induction false} NormalPositive(t: Query)
    ensures HasPositive(Normal(t)) <==> IsPositive(t)
    decreases t
  {
    hide IsStop, Spliced, DropStops, Counts;
    match t {
      case And(kids) =>
        NormalOperands(kids);
        var all := Operands(t);
        forall o | o in all ensures (HasPositive(Normal(o)) <==> IsPositive(o)) && (Normal(o).Not? <==> o.Not?) {
          NormalPositive(o);
          StopStays(o);
        }
        AndPositive(t, Normal(t).kids);
      case Or(kids) =>
        forall k | k in kids ensures HasPositive(Normal(k)) <==> IsPositive(k) {
          NormalPositive(k);
        }
        OrPositive(kids);
      case _ =>
    }
  }

  lemma AndPositive(t: Query, left: seq<Query>)
    requires t.And? && forall k :: k in left <==> IsLeft(k, Operands(t))
    requires forall o :: o in Operands(t) ==>
               (HasPositive(Normal(o)) <==> IsPositive(o)) && (Normal(o).Not? <==> o.Not?)
    ensures HasPositive(And(left)) <==> IsPositive(t)
  {
    hide Operands, Normal, Counts, IsStop;
    var all := Operands(t);
    if o :| o in all && Counts(o, all) && !o.Not? && IsPositive(o) {
      assert IsLeft(Normal(o), all);
      assert Normal(o) in left;
    }
    if k :| k in left && !k.Not? && HasPositive(k) {
      var o :| o in all && Counts(o, all) && k == Normal(o);
    }
  }

  lemma OrIsPositive(kids: seq<Query>)
    ensures HasPositive(Or(kids)) <==> exists k :: k in kids && HasPositive(k)
    ensures IsPositive(Or(kids)) <==> exists k :: k in kids && IsPositive(k)
  {
  }

  lemma OrPositive(kids: seq<Query>)
    requires forall k :: k in kids ==> (HasPositive(Normal(k)) <==> IsPositive(k))
    ensures HasPositive(Or(Spliced(NormalAll(kids), false))) <==> IsPositive(Or(kids))
  {
    hide Normal, Spliced, HasPositive, IsPositive;
    var list := NormalAll(kids);
    var spliced := Spliced(list, false);
    OrIsPositive(kids);
    OrIsPositive(spliced);
    SplicedMembers(list, false);
    forall i | 0 <= i < |kids| ensures list[i] == Normal(kids[i]) && list[i] in list && kids[i] in kids {}
    if k :| k in kids && IsPositive(k) {
      var i :| 0 <= i < |kids| && kids[i] == k;
      var n := list[i];
      if n.Or? {
        OrIsPositive(n.kids);
        var c :| c in n.kids && HasPositive(c);
        assert IsSpliced(c, list, false);
      } else {
        assert IsSpliced(n, list, false);
      }
    }
    if c :| c in spliced && HasPositive(c) {
      assert IsSpliced(c, list, false);
      var n :| n in list && (n == c || (n.Or? && c in n.kids));
      if n.Or? && c in n.kids {
        OrIsPositive(n.kids);
      }
      var i :| 0 <= i < |list| && list[i] == n;
      assert IsPositive(kids[i]);
    }
  }

  lemma {:induction false} NormalWanted(t: Query, page: Page)
    ensures Found(Normal(t), page) <==> IsWanted(t, page)
    decreases t
  {
    hide IsStop, Spliced, DropStops, Counts;
    match t {
      case And(kids) =>
        NormalOperands(kids);
        NormalPositive(t);
        forall o | o in Operands(t) ensures OperandAgrees(o, page) {
          NormalWanted(if o.Not? then o.inner else o, page);
          NormalPositive(o);
          StopStays(o);
        }
        AndWanted(t, Normal(t).kids, page);
      case Or(kids) =>
        forall k | k in kids ensures Found(Normal(k), page) <==> IsWanted(k, page) {
          NormalWanted(k, page);
        }
        OrWanted(kids, page);
      case _ =>
    }
  }

  ghost predicate OperandAgrees(o: Query, page: Page) {
    && (Normal(o).Not? <==> o.Not?)
    && (HasPositive(Normal(o)) <==> IsPositive(o))
    && (if o.Not? then Normal(o).inner == Normal(o.inner) && (Found(Normal(o.inner), page) <==> IsWanted(o.inner, page))
        else Found(Normal(o), page) <==> IsWanted(o, page))
  }

  // a child of an AND, and an operand of one, lets the page through
  ghost predicate Lets(k: Query, page: Page) {
    if k.Not? then !Found(k.inner, page) else HasPositive(k) ==> Found(k, page)
  }

  ghost predicate WouldLet(o: Query, page: Page) {
    if o.Not? then !IsWanted(o.inner, page) else IsPositive(o) ==> IsWanted(o, page)
  }

  lemma AndIsAll(left: seq<Query>, page: Page)
    ensures Found(And(left), page) <==> HasPositive(And(left)) && forall k :: k in left ==> Lets(k, page)
  {
  }

  lemma RowIsAll(t: Query, page: Page)
    requires t.And?
    ensures IsWanted(t, page) <==>
            IsPositive(t) && forall o :: o in Operands(t) && Counts(o, Operands(t)) ==> WouldLet(o, page)
  {
    hide Operands, Counts, Found;
    var all := Operands(t);
    RowIsPositive(t);
    assert IsWanted(t, page) <==>
           && (exists o :: o in all && Counts(o, all) && !o.Not? && IsPositive(o))
           && (forall o :: o in all ==> Counts(o, all) ==>
                 if o.Not? then !IsWanted(o.inner, page) else IsPositive(o) ==> IsWanted(o, page));
    hide IsWanted, IsPositive;
  }

  lemma RowIsPositive(t: Query)
    requires t.And?
    ensures IsPositive(t) <==>
            exists o :: o in Operands(t) && Counts(o, Operands(t)) && !o.Not? && IsPositive(o)
  {
    hide Operands, Counts;
  }

  lemma LetsAgree(o: Query, page: Page)
    requires OperandAgrees(o, page)
    ensures Lets(Normal(o), page) <==> WouldLet(o, page)
  {
    hide Normal, Found, IsWanted, HasPositive, IsPositive;
  }

  lemma AndWanted(t: Query, left: seq<Query>, page: Page)
    requires t.And? && forall k :: k in left <==> IsLeft(k, Operands(t))
    requires HasPositive(And(left)) <==> IsPositive(t)
    requires forall o :: o in Operands(t) ==> OperandAgrees(o, page)
    ensures Found(And(left), page) <==> IsWanted(t, page)
  {
    hide Operands, Normal, Counts, Found, IsWanted, HasPositive, IsPositive, OperandAgrees, Lets, WouldLet;
    AndIsAll(left, page);
    RowIsAll(t, page);
    var all := Operands(t);
    forall o | o in all && Counts(o, all)
      ensures Normal(o) in left && (Lets(Normal(o), page) <==> WouldLet(o, page))
    {
      assert IsLeft(Normal(o), all);
      LetsAgree(o, page);
    }
    forall k | k in left ensures exists o :: o in all && Counts(o, all) && k == Normal(o) {
      assert IsLeft(k, all);
    }
  }

  lemma OrIsSome(kids: seq<Query>, page: Page)
    ensures Found(Or(kids), page) <==> exists k :: k in kids && Found(k, page)
    ensures IsWanted(Or(kids), page) <==> exists k :: k in kids && IsWanted(k, page)
  {
  }

  lemma OrWanted(kids: seq<Query>, page: Page)
    requires forall k :: k in kids ==> (Found(Normal(k), page) <==> IsWanted(k, page))
    ensures Found(Or(Spliced(NormalAll(kids), false)), page) <==> IsWanted(Or(kids), page)
  {
    hide Normal, Spliced, Found, IsWanted;
    var list := NormalAll(kids);
    var spliced := Spliced(list, false);
    OrIsSome(kids, page);
    OrIsSome(spliced, page);
    SplicedMembers(list, false);
    forall i | 0 <= i < |kids| ensures list[i] == Normal(kids[i]) && list[i] in list && kids[i] in kids {}
    if k :| k in kids && IsWanted(k, page) {
      var i :| 0 <= i < |kids| && kids[i] == k;
      var n := list[i];
      if n.Or? {
        OrIsSome(n.kids, page);
        var c :| c in n.kids && Found(c, page);
        assert IsSpliced(c, list, false);
      } else {
        assert IsSpliced(n, list, false);
      }
    }
    if c :| c in spliced && Found(c, page) {
      assert IsSpliced(c, list, false);
      var n :| n in list && (n == c || (n.Or? && c in n.kids));
      if n.Or? && c in n.kids {
        OrIsSome(n.kids, page);
      }
      var i :| 0 <= i < |list| && list[i] == n;
      assert IsWanted(kids[i], page);
    }
  }

  // ---- on derivations: what a text asks for

  // a group of one row without a '-' before it is part of the row around it
  predicate IsRow(h: Head) { h.Group? && !h.query.query.Alternative? }

  ghost function Units(a: AndRule): (r: seq<UnaryRule>)
    ensures forall u :: u in r ==> u < a
    decreases a
  {
    UnitsOf(a.unary) + if a.Conjunction? then Units(a.others) else []
  }

  ghost function UnitsOf(u: UnaryRule): (r: seq<UnaryRule>)
    ensures forall x :: x in r ==> x == u || x < u
    decreases u
  {
    if IsInner(u) then
      var inner := u.head.query.query.operand;
      assert inner < u.head.query.query < u.head.query < u.head < u;
      Units(inner)
    else [u]
  }

  predicate IsInner(u: UnaryRule) { !HasDash(u.lead) && IsRow(u.head) }

  ghost predicate IsStopUnit(u: UnaryRule) {
    && !HasDash(u.lead)
    && match u.head
       case Bare(word) => IsStopWord(Fold(word))
       case Quoted(_, words, _) => |words| == 1 && IsStopWord(Fold(words[0].word))
       case Group(_, _) => false
  }

  // a stop word does not count beside anything else
  ghost predicate UnitCounts(u: UnaryRule, all: seq<UnaryRule>) {
    IsStopUnit(u) ==> forall x :: x in all ==> IsStopUnit(x)
  }

  // there is something to look for: in a row, an operand that counts and is not negated
  ghost predicate RowAsks(a: AndRule)
    decreases a, 0
  {
    exists u | u in Units(a) :: UnitCounts(u, Units(a)) && !HasDash(u.lead) && HeadAsks(u.head)
  }

  ghost predicate HeadAsks(h: Head)
    decreases h, 0
  {
    match h
    case Bare(_) => true
    case Quoted(_, words, _) => words != []
    case Group(query, _) => QueryAsks(query.query)
  }

  ghost predicate QueryAsks(o: OrRule)
    decreases o, 1
  {
    RowAsks(o.operand) || (o.Alternative? && QueryAsks(o.others))
  }

  ghost predicate HasWord(page: Page, term: string) {
    term in Runs(page.url) || term in FoldAll(page.titleWords) || term in FoldAll(page.words) ||
    term in FoldAll(page.anchorText)
  }

  ghost predicate HasWords(page: Page, words: seq<string>) {
    Occurs(words, Runs(page.url)) || Occurs(words, FoldAll(page.titleWords)) || Occurs(words, FoldAll(page.words)) ||
    Occurs(words, FoldAll(page.anchorText))
  }

  // a page is asked for by a row that asks for something, when every operand that counts is met:
  // a negated one by finding nothing, another by finding the page if it asks for anything
  ghost predicate RowWants(a: AndRule, page: Page)
    decreases a, 0
  {
    && (exists u | u in Units(a) :: UnitCounts(u, Units(a)) && !HasDash(u.lead) && HeadAsks(u.head))
    && (forall u | u in Units(a) :: UnitCounts(u, Units(a)) ==>
          if HasDash(u.lead) then !HeadWants(u.head, page) else HeadAsks(u.head) ==> HeadWants(u.head, page))
  }

  ghost predicate HeadWants(h: Head, page: Page)
    decreases h, 0
  {
    match h
    case Bare(word) => HasWord(page, Fold(word))
    case Quoted(_, words, _) =>
      && words != []
      && if |words| == 1 then HasWord(page, Fold(words[0].word)) else HasWords(page, QuotedWords(words))
    case Group(query, _) => QueryWants(query.query, page)
  }

  // alternatives: some row asks for the page
  ghost predicate QueryWants(o: OrRule, page: Page)
    decreases o, 1
  {
    RowWants(o.operand, page) || (o.Alternative? && QueryWants(o.others, page))
  }

  // ---- the tree of a derivation is read as the derivation is

  ghost function TreesOf(us: seq<UnaryRule>): (r: seq<Query>)
    ensures |r| == |us| && forall i :: 0 <= i < |us| ==> r[i] == UnaryTree(us[i])
  {
    seq(|us|, i requires 0 <= i < |us| => UnaryTree(us[i]))
  }

  lemma OperandsStep(kids: seq<Query>)
    ensures kids == [] ==> OperandsOf(kids) == []
    ensures kids != [] ==> OperandsOf(kids) == OperandsOf(kids[..|kids| - 1]) + Operands(kids[|kids| - 1])
  {
    hide Operands;
  }

  lemma {:induction false} OperandsConcat(a: seq<Query>, b: seq<Query>)
    ensures OperandsOf(a + b) == OperandsOf(a) + OperandsOf(b)
    decreases |b|
  {
    hide Operands, OperandsOf;
    OperandsStep(b);
    if b == [] {
      assert a + b == a && OperandsOf(a) + [] == OperandsOf(a);
    } else {
      var n := |b| - 1;
      OperandsConcat(a, b[..n]);
      OperandsStep(a + b);
      assert (a + b)[..|a| + n] == a + b[..n] && (a + b)[|a| + n] == b[n];
      var x, y, z := OperandsOf(a), OperandsOf(b[..n]), Operands(b[n]);
      assert (x + y) + z == x + (y + z);
    }
  }

  lemma OneOperand(t: Query)
    ensures OperandsOf([t]) == Operands(t)
  {
    hide Operands;
    assert [t][..0] == [];
    assert OperandsOf([]) == [];
  }

  // a row's tree has the operands of its operands' trees
  lemma AndOperands(a: AndRule)
    ensures Operands(AndTree(a)) == OperandsOf(AndTrees(a))
  {
    hide AndTrees, OperandsOf;
    var trees := AndTrees(a);
    if |trees| == 1 {
      OneOperand(trees[0]);
      assert trees == [trees[0]];
    }
  }

  lemma {:induction false} RowOperands(a: AndRule)
    ensures OperandsOf(AndTrees(a)) == TreesOf(Units(a))
    decreases a
  {
    hide UnaryTree, Operands, OperandsOf;
    UnitOperands(a.unary);
    OneOperand(UnaryTree(a.unary));
    if a.Conjunction? {
      RowOperands(a.others);
      OperandsConcat([UnaryTree(a.unary)], AndTrees(a.others));
    } else {
      assert [UnaryTree(a.unary)] + [] == [UnaryTree(a.unary)];
    }
  }

  lemma {:induction false} UnitOperands(u: UnaryRule)
    ensures Operands(UnaryTree(u)) == TreesOf(UnitsOf(u))
    decreases u
  {
    hide OrTree, OrTrees, OperandsOf, Operands, AndTree, AndTrees, Units, HasDash, UnaryTree;
    if IsInner(u) {
      var o := u.head.query.query;
      InnerTree(u);
      OneRow(o);
      AndOperands(o.operand);
      RowOperands(o.operand);
    } else {
      UnitIsNoRow(u);
      NoAndIsOne(UnaryTree(u));
    }
  }

  lemma GroupTree(h: Head)
    requires h.Group?
    ensures HeadTree(h) == OrTree(h.query.query)
  {
    hide OrTree;
    assert QueryTree(h.query) == OrTree(h.query.query);
  }

  lemma InnerTree(u: UnaryRule)
    requires IsInner(u)
    ensures UnaryTree(u) == OrTree(u.head.query.query)
  {
    hide OrTree, HasDash;
    GroupTree(u.head);
  }

  lemma OneRow(o: OrRule)
    requires !o.Alternative?
    ensures OrTree(o) == AndTree(o.operand)
  {
    hide AndTree;
  }

  // what a unit that is no row stands for
  lemma UnitIsNoRow(u: UnaryRule)
    requires !IsInner(u)
    ensures !UnaryTree(u).And? && (UnaryTree(u).Not? <==> HasDash(u.lead))
    ensures IsStop(UnaryTree(u)) <==> IsStopUnit(u)
    ensures HasDash(u.lead) ==> UnaryTree(u).inner == HeadTree(u.head)
    ensures !HasDash(u.lead) ==> UnaryTree(u) == HeadTree(u.head)
  {
    hide OrTree, IsStopWord, HasDash, QuotedWords;
    match u.head
    case Bare(_) =>
    case Quoted(_, words, _) =>
      QuotedWordsCount(words);
      OneQuoted(words);
    case Group(query, _) =>
      GroupTree(u.head);
      if query.query.Alternative? {
        ManyRows(query.query);
      }
  }

  lemma ManyRows(o: OrRule)
    requires o.Alternative?
    ensures OrTree(o).Or?
  {
    hide AndTree;
  }

  lemma {:induction false} WantedIsPositive(t: Query, page: Page)
    ensures IsWanted(t, page) ==> IsPositive(t)
    decreases t
  {
    match t {
      case Or(kids) =>
        OrIsSome(kids, page);
        OrIsPositive(kids);
        forall k | k in kids ensures IsWanted(k, page) ==> IsPositive(k) { WantedIsPositive(k, page); }
      case And(_) =>
        RowIsAll(t, page);
      case _ =>
    }
  }

  ghost predicate OpsAsk(all: seq<Query>) {
    exists o :: o in all && Counts(o, all) && !o.Not? && IsPositive(o)
  }

  ghost predicate OpsWant(all: seq<Query>, page: Page) {
    OpsAsk(all) && forall o :: o in all && Counts(o, all) ==> WouldLet(o, page)
  }

  // any tree is read by its operands
  lemma ByOperands(t: Query, page: Page)
    ensures IsPositive(t) <==> OpsAsk(Operands(t))
    ensures IsWanted(t, page) <==> OpsWant(Operands(t), page)
  {
    hide Operands, Counts, IsWanted, IsPositive;
    if t.And? {
      RowIsAll(t, page);
      RowIsPositive(t);
    } else {
      assert Operands(t) == [t] by { NoAndIsOne(t); }
      WantedIsPositive(t, page);
      AloneCounts(t);
      NotIsNothing(t, page);
      assert t in [t];
    }
  }

  lemma NoAndIsOne(t: Query)
    requires !t.And?
    ensures Operands(t) == [t]
  {
  }

  lemma AloneCounts(t: Query)
    ensures Counts(t, [t])
  {
  }

  lemma NotIsNothing(t: Query, page: Page)
    ensures t.Not? ==> !IsPositive(t) && !IsWanted(t, page)
  {
  }

  ghost predicate UnitAgrees(u: UnaryRule, page: Page) {
    var t := HeadTree(u.head);
    && (IsPositive(t) <==> HeadAsks(u.head))
    && (IsWanted(t, page) <==> HeadWants(u.head, page))
  }

  lemma SameCounts(us: seq<UnaryRule>)
    requires forall u :: u in us ==> !IsInner(u)
    ensures forall u :: u in us ==> (Counts(UnaryTree(u), TreesOf(us)) <==> UnitCounts(u, us))
  {
    hide UnaryTree, IsStop, IsStopUnit, IsInner;
    var all := TreesOf(us);
    forall u | u in us ensures IsStop(UnaryTree(u)) <==> IsStopUnit(u) {
      UnitIsNoRow(u);
    }
    assert (forall x :: x in all ==> IsStop(x)) <==> (forall x :: x in us ==> IsStopUnit(x)) by {
      forall i | 0 <= i < |us| ensures all[i] in all && us[i] in us && (IsStop(all[i]) <==> IsStopUnit(us[i])) {}
    }
  }

  lemma UnitLets(u: UnaryRule, page: Page)
    requires (!IsInner(u)) && UnitAgrees(u, page)
    ensures WouldLet(UnaryTree(u), page) <==>
            if HasDash(u.lead) then !HeadWants(u.head, page) else HeadAsks(u.head) ==> HeadWants(u.head, page)
    ensures !UnaryTree(u).Not? && IsPositive(UnaryTree(u)) <==> !HasDash(u.lead) && HeadAsks(u.head)
  {
    hide UnaryTree, HeadTree, HasDash, IsInner, IsPositive, IsWanted, HeadAsks, HeadWants, IsStop, IsStopUnit;
    UnitIsNoRow(u);
  }

  lemma {:induction false} UnitsAreNoRows(a: AndRule)
    ensures forall u :: u in Units(a) ==> !IsInner(u)
    decreases a
  {
    hide IsInner;
    UnitsOfNoRow(a.unary);
    if a.Conjunction? {
      UnitsAreNoRows(a.others);
    }
  }

  lemma {:induction false} UnitsOfNoRow(u: UnaryRule)
    ensures forall x :: x in UnitsOf(u) ==> !IsInner(x)
    decreases u, 1
  {
    hide HasDash, Units;
    if IsInner(u) {
      UnitsAreNoRows(u.head.query.query.operand);
    }
  }

  lemma RowAgrees(a: AndRule, page: Page)
    requires forall u :: u in Units(a) ==> UnitAgrees(u, page)
    ensures IsPositive(AndTree(a)) <==> RowAsks(a)
    ensures IsWanted(AndTree(a), page) <==> RowWants(a, page)
  {
    hide AndTree, Units, UnaryTree, HasDash, IsInner, Counts, UnitCounts, WouldLet, IsPositive, IsWanted, HeadAsks,
         HeadWants, UnitAgrees, Operands, OperandsOf, AndTrees;
    AndOperands(a);
    RowOperands(a);
    ByOperands(AndTree(a), page);
    var us := Units(a);
    var all := TreesOf(us);
    UnitsAreNoRows(a);
    SameCounts(us);
    forall i | 0 <= i < |us|
      ensures us[i] in us && all[i] in all && all[i] == UnaryTree(us[i])
      ensures WouldLet(all[i], page) <==>
              if HasDash(us[i].lead) then !HeadWants(us[i].head, page)
              else HeadAsks(us[i].head) ==> HeadWants(us[i].head, page)
      ensures !all[i].Not? && IsPositive(all[i]) <==> !HasDash(us[i].lead) && HeadAsks(us[i].head)
    {
      UnitLets(us[i], page);
    }
    AskIsAsk(us, all);
    WantIsWant(us, all, page);
    RowAsksIs(a, page);
  }

  ghost predicate UnitsAsk(us: seq<UnaryRule>) {
    exists u :: u in us && UnitCounts(u, us) && !HasDash(u.lead) && HeadAsks(u.head)
  }

  ghost predicate UnitsLet(us: seq<UnaryRule>, page: Page) {
    forall u :: u in us && UnitCounts(u, us) ==>
      if HasDash(u.lead) then !HeadWants(u.head, page) else HeadAsks(u.head) ==> HeadWants(u.head, page)
  }

  lemma RowAsksIs(a: AndRule, page: Page)
    ensures RowAsks(a) <==> UnitsAsk(Units(a))
    ensures RowWants(a, page) <==> UnitsAsk(Units(a)) && UnitsLet(Units(a), page)
  {
    hide Units, UnitCounts, HasDash;
  }

  lemma AskIsAsk(us: seq<UnaryRule>, all: seq<Query>)
    requires |us| == |all|
    requires forall i :: 0 <= i < |us| ==>
               && (Counts(all[i], all) <==> UnitCounts(us[i], us))
               && (!all[i].Not? && IsPositive(all[i]) <==> !HasDash(us[i].lead) && HeadAsks(us[i].head))
    ensures OpsAsk(all) <==> UnitsAsk(us)
  {
    hide Counts, UnitCounts, HasDash, IsPositive, HeadAsks;
    if o :| o in all && Counts(o, all) && !o.Not? && IsPositive(o) {
      var i :| 0 <= i < |all| && all[i] == o;
      assert us[i] in us;
    }
    if u :| u in us && UnitCounts(u, us) && !HasDash(u.lead) && HeadAsks(u.head) {
      var i :| 0 <= i < |us| && us[i] == u;
      assert all[i] in all;
    }
  }

  lemma WantIsWant(us: seq<UnaryRule>, all: seq<Query>, page: Page)
    requires |us| == |all|
    requires forall i :: 0 <= i < |us| ==>
               && (Counts(all[i], all) <==> UnitCounts(us[i], us))
               && (WouldLet(all[i], page) <==>
                   if HasDash(us[i].lead) then !HeadWants(us[i].head, page)
                   else HeadAsks(us[i].head) ==> HeadWants(us[i].head, page))
    ensures (forall o :: o in all && Counts(o, all) ==> WouldLet(o, page)) <==> UnitsLet(us, page)
  {
    hide Counts, UnitCounts, HasDash, HeadAsks, HeadWants, WouldLet;
    if UnitsLet(us, page) {
      forall o | o in all && Counts(o, all) ensures WouldLet(o, page) {
        var i :| 0 <= i < |all| && all[i] == o;
        assert us[i] in us;
      }
    }
    if forall o :: o in all && Counts(o, all) ==> WouldLet(o, page) {
      forall u | u in us && UnitCounts(u, us)
        ensures if HasDash(u.lead) then !HeadWants(u.head, page) else HeadAsks(u.head) ==> HeadWants(u.head, page)
      {
        var i :| 0 <= i < |us| && us[i] == u;
        assert all[i] in all;
      }
    }
  }

  lemma {:induction false} RowMeans(a: AndRule, page: Page)
    ensures IsPositive(AndTree(a)) <==> RowAsks(a)
    ensures IsWanted(AndTree(a), page) <==> RowWants(a, page)
    decreases a, 0
  {
    hide AndTree, Units, IsPositive, IsWanted, RowAsks, RowWants, UnitAgrees;
    forall u | u in Units(a) ensures UnitAgrees(u, page) {
      HeadMeans(u, page);
    }
    RowAgrees(a, page);
  }

  lemma {:induction false} HeadMeans(u: UnaryRule, page: Page)
    ensures UnitAgrees(u, page)
    decreases u
  {
    hide OrTree, QueryAsks, QueryWants, HasWord, HasWords, QuotedWords, IsPositive, IsWanted;
    match u.head {
      case Bare(word) => WordMeans(Fold(word), page);
      case Quoted(_, words, _) =>
        QuotedWordsCount(words);
        OneQuoted(words);
        WordMeans(if |words| == 1 then Fold(words[0].word) else "", page);
        PhraseMeans(QuotedWords(words), page);
      case Group(query, _) =>
        GroupTree(u.head);
        QueryMeans(query.query, page);
    }
  }

  lemma OneQuoted(words: seq<QuotedWord>)
    ensures |words| == 1 ==> QuotedWords(words) == [Fold(words[0].word)]
  {
  }

  lemma WordMeans(term: string, page: Page)
    ensures IsPositive(Word(term)) && (IsWanted(Word(term), page) <==> HasWord(page, term))
  {
    hide Runs, FoldAll;
  }

  lemma PhraseMeans(words: seq<string>, page: Page)
    ensures IsPositive(Phrase(words)) <==> words != []
    ensures IsWanted(Phrase(words), page) <==> words != [] && HasWords(page, words)
  {
    hide Runs, FoldAll, Occurs;
  }

  ghost predicate SomeWanted(trees: seq<Query>, page: Page) { exists t :: t in trees && IsWanted(t, page) }

  ghost predicate SomePositive(trees: seq<Query>) { exists t :: t in trees && IsPositive(t) }

  // joined alternatives are read as the alternatives
  lemma OrTreeReads(o: OrRule, page: Page)
    ensures IsPositive(OrTree(o)) <==> SomePositive(OrTrees(o))
    ensures IsWanted(OrTree(o), page) <==> SomeWanted(OrTrees(o), page)
  {
    hide OrTrees, IsPositive, IsWanted;
    var trees := OrTrees(o);
    assert trees == [trees[0]] + trees[1..];
    if |trees| == 1 {
      assert trees[0] in trees;
    } else if trees[0].Or? {
      var kids := trees[0].kids;
      OrIsSome(kids, page);
      OrIsPositive(kids);
      OrIsSome(kids + trees[1..], page);
      OrIsPositive(kids + trees[1..]);
      assert forall k :: k in kids + trees[1..] <==> k in kids || k in trees[1..];
      assert forall k :: k in trees <==> k == trees[0] || k in trees[1..];
    } else {
      OrIsSome(trees, page);
      OrIsPositive(trees);
    }
  }

  lemma {:induction false} QueryMeans(o: OrRule, page: Page)
    ensures IsPositive(OrTree(o)) <==> QueryAsks(o)
    ensures IsWanted(OrTree(o), page) <==> QueryWants(o, page)
    decreases o, 1
  {
    hide OrTree, IsPositive, IsWanted, OrTrees, QueryAsks, QueryWants;
    OrTreeReads(o, page);
    TreesMean(o, page);
  }

  lemma {:induction false} TreesMean(o: OrRule, page: Page)
    ensures SomePositive(OrTrees(o)) <==> QueryAsks(o)
    ensures SomeWanted(OrTrees(o), page) <==> QueryWants(o, page)
    decreases o, 0
  {
    hide AndTree, IsPositive, IsWanted, RowAsks, RowWants;
    RowMeans(o.operand, page);
    if o.Alternative? {
      TreesMean(o.others, page);
    }
    var others := if o.Alternative? then OrTrees(o.others) else [];
    assert OrTrees(o) == [AndTree(o.operand)] + others;
    assert forall t :: t in OrTrees(o) <==> t == AndTree(o.operand) || t in others;
  }

  // the normal form of a derivation's tree finds exactly the pages that the derivation wants
  lemma DerivationFinds(q: QueryRule, page: Page)
    ensures HasPositive(Normal(QueryTree(q))) <==> QueryAsks(q.query)
    ensures Found(Normal(QueryTree(q)), page) <==> QueryWants(q.query, page)
  {
    hide OrTree, HasPositive, IsPositive, Normal, Found, IsWanted, QueryAsks, QueryWants;
    NormalPositive(QueryTree(q));
    NormalWanted(QueryTree(q), page);
    QueryMeans(q.query, page);
  }

  // the pages that a derivation wants, in increasing order
  ghost predicate AreWanted(matches: seq<int>, pages: seq<Page>, q: QueryRule) {
    && (forall i, j :: 0 <= i < j < |matches| ==> matches[i] < matches[j])
    && (forall d :: d in matches <==> 0 <= d < |pages| && QueryWants(q.query, pages[d]))
  }

  lemma FoundAreWanted(matches: seq<int>, pages: seq<Page>, q: QueryRule)
    requires AreFound(matches, pages, Normal(QueryTree(q)))
    ensures AreWanted(matches, pages, q)
  {
    hide QueryTree, Normal, Found, QueryWants;
    forall d | 0 <= d < |pages| ensures Found(Normal(QueryTree(q)), pages[d]) <==> QueryWants(q.query, pages[d]) {
      DerivationFinds(q, pages[d]);
    }
  }
}
