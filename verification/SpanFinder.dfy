/** The tightest window over the query terms' positions in a document. */
module SpanFinding {
  import opened Sorting

  const SIZE_MAX := 0xFFFF_FFFF_FFFF_FFFF

  datatype SpanResult = SpanResult(found: bool, span: nat, inOrder: bool, exactPhrase: bool)

  datatype SpanHit = SpanHit(pos: nat, term: nat)

  // ---- what a span is

  // one position for each term
  ghost predicate IsChoice(positions: seq<seq<nat>>, choice: seq<nat>) {
    |choice| == |positions| && forall t :: 0 <= t < |choice| ==> choice[t] in positions[t]
  }

  // the largest less the smallest is at most w
  ghost predicate IsWithin(choice: seq<nat>, w: nat) {
    forall s, t :: 0 <= s < |choice| && 0 <= t < |choice| ==> choice[t] - choice[s] <= w
  }

  ghost predicate IsMinimalSpan(positions: seq<seq<nat>>, span: nat) {
    && (exists choice :: IsChoice(positions, choice) && IsWithin(choice, span))
    && (forall choice, w: nat :: IsChoice(positions, choice) && IsWithin(choice, w) ==> span <= w)
  }

  // every term has a position from a to a + span
  ghost predicate IsWindow(positions: seq<seq<nat>>, a: nat, span: nat) {
    forall t :: 0 <= t < |positions| ==> HasFrom(positions[t], a, span)
  }

  ghost predicate HasFrom(ps: seq<nat>, a: nat, span: nat) {
    exists p :: p in ps && a <= p <= a + span
  }

  ghost predicate IsLeftmostWindow(positions: seq<seq<nat>>, a: nat, span: nat) {
    IsWindow(positions, a, span) && forall b :: 0 <= b < a ==> !IsWindow(positions, b, span)
  }

  // the first position from a on, or SIZE_MAX
  function FirstFrom(ps: seq<nat>, a: nat): nat {
    if ps == [] then SIZE_MAX
    else
      var first := FirstFrom(ps[..|ps| - 1], a);
      if a <= ps[|ps| - 1] < first then ps[|ps| - 1] else first
  }

  lemma {:induction false} FirstFromIs(ps: seq<nat>, a: nat)
    requires forall p :: p in ps ==> p < SIZE_MAX
    ensures forall p :: p in ps && a <= p ==> FirstFrom(ps, a) <= p
    ensures FirstFrom(ps, a) == SIZE_MAX || (FirstFrom(ps, a) in ps && a <= FirstFrom(ps, a) < SIZE_MAX)
  {
    if ps != [] {
      var init := ps[..|ps| - 1];
      assert ps == init + [ps[|ps| - 1]];
      forall p | p in init ensures p < SIZE_MAX {
        assert p in ps;
      }
      FirstFromIs(init, a);
    }
  }

  ghost predicate InOrderFrom(positions: seq<seq<nat>>, a: nat) {
    forall t :: 1 <= t < |positions| ==> FirstFrom(positions[t - 1], a) <= FirstFrom(positions[t], a)
  }

  // the terms at a, a + 1, ... in query order
  ghost predicate IsPhraseAt(positions: seq<seq<nat>>, a: nat) {
    forall t :: 0 <= t < |positions| ==> a + t in positions[t]
  }

  ghost predicate AreDisjoint(positions: seq<seq<nat>>) {
    forall s, t, p :: 0 <= s < t < |positions| && p in positions[s] ==> p !in positions[t]
  }

  // ---- windows over the merged hits

  ghost predicate AreHitsOf(hits: seq<SpanHit>, positions: seq<seq<nat>>) {
    && (forall h :: h in hits ==> h.term < |positions| && h.pos in positions[h.term])
    && (forall t, p :: 0 <= t < |positions| && p in positions[t] ==> SpanHit(p, t) in hits)
  }

  function PosOf(h: SpanHit): int { h.pos }

  // the hits of a term among those from l up to r, exclusive
  function CountIn(hits: seq<SpanHit>, l: nat, r: nat, t: nat): nat
    requires l <= r <= |hits|
  {
    if l == r then 0 else CountIn(hits, l, r - 1, t) + if hits[r - 1].term == t then 1 else 0
  }

  lemma {:induction false} CountWithoutFirst(hits: seq<SpanHit>, l: nat, r: nat, t: nat)
    requires l < r <= |hits|
    ensures CountIn(hits, l, r, t) == CountIn(hits, l + 1, r, t) + if hits[l].term == t then 1 else 0
    decreases r - l
  {
    if l + 1 < r {
      CountWithoutFirst(hits, l, r - 1, t);
    }
  }

  lemma {:induction false} CountIsPositive(hits: seq<SpanHit>, l: nat, r: nat, t: nat)
    requires l <= r <= |hits|
    ensures CountIn(hits, l, r, t) > 0 <==> exists i :: l <= i < r && hits[i].term == t
    decreases r - l
  {
    if l < r {
      CountIsPositive(hits, l, r - 1, t);
    }
  }

  // the hits from l to r, inclusive, have every term
  ghost predicate Covers(hits: seq<SpanHit>, n: nat, l: int, r: int) {
    && 0 <= l <= r < |hits|
    && forall t :: 0 <= t < n ==> HasTermIn(hits, l, r, t)
  }

  ghost predicate HasTermIn(hits: seq<SpanHit>, l: int, r: int, t: nat)
    requires 0 <= l <= r < |hits|
  {
    exists i :: l <= i <= r && hits[i].term == t
  }

  lemma SmallerCoversLess(hits: seq<SpanHit>, n: nat, l: int, r: int, l': int, r': int)
    requires Covers(hits, n, l', r') && 0 <= l <= l' && r' <= r < |hits|
    ensures Covers(hits, n, l, r)
  {
    forall t | 0 <= t < n ensures HasTermIn(hits, l, r, t) {
      assert HasTermIn(hits, l', r', t);
    }
  }

  function Positive(count: seq<nat>): nat {
    if count == [] then 0
    else Positive(count[..|count| - 1]) + if count[|count| - 1] > 0 then 1 else 0
  }

  lemma {:induction false} AllPositive(count: seq<nat>)
    ensures Positive(count) <= |count|
    ensures Positive(count) == |count| <==> forall t :: 0 <= t < |count| ==> count[t] > 0
  {
    if count != [] {
      AllPositive(count[..|count| - 1]);
    }
  }

  lemma {:induction false} PositiveChange(count: seq<nat>, t: nat, c: nat)
    requires t < |count|
    ensures Positive(count[t := c]) ==
            Positive(count) + (if c > 0 then 1 else 0) - (if count[t] > 0 then 1 else 0)
  {
    var n := |count| - 1;
    if t == n {
      assert count[t := c][..n] == count[..n];
    } else {
      PositiveChange(count[..n], t, c);
      assert count[t := c][..n] == count[..n][t := c];
    }
  }

  ghost predicate AreCounts(count: seq<nat>, hits: seq<SpanHit>, l: nat, r: nat) {
    && l <= r <= |hits|
    && forall t :: 0 <= t < |count| ==> count[t] == CountIn(hits, l, r, t)
  }

  lemma CountsCover(count: seq<nat>, hits: seq<SpanHit>, l: nat, r: nat)
    requires AreCounts(count, hits, l, r) && |count| > 0
    ensures Positive(count) == |count| <==> Covers(hits, |count|, l, r - 1)
  {
    AllPositive(count);
    forall t | 0 <= t < |count|
      ensures count[t] > 0 <==> l < r && HasTermIn(hits, l, r - 1, t)
    {
      CountIsPositive(hits, l, r, t);
    }
    assert count[0] > 0 ==> l < r;
  }

  lemma CountsGrow(count: seq<nat>, hits: seq<SpanHit>, l: nat, r: nat)
    requires AreCounts(count, hits, l, r) && r < |hits| && hits[r].term < |count|
    ensures AreCounts(count[hits[r].term := count[hits[r].term] + 1], hits, l, r + 1)
  {
  }

  lemma CountsShrink(count: seq<nat>, hits: seq<SpanHit>, l: nat, r: nat)
    requires AreCounts(count, hits, l, r) && l < r && hits[l].term < |count|
    ensures count[hits[l].term] > 0
    ensures AreCounts(count[hits[l].term := count[hits[l].term] - 1], hits, l + 1, r)
  {
    forall t | 0 <= t < |count|
      ensures CountIn(hits, l, r, t) == CountIn(hits, l + 1, r, t) + if hits[l].term == t then 1 else 0
    {
      CountWithoutFirst(hits, l, r, t);
    }
  }

  // the best window among those that start before `left`: the first of the tightest
  ghost predicate IsBestBefore(hits: seq<SpanHit>, n: nat, left: nat, best: nat, bestLeft: nat, bestRight: nat) {
    && (best == SIZE_MAX || (Covers(hits, n, bestLeft, bestRight) && hits[bestRight].pos - hits[bestLeft].pos == best))
    && (best == SIZE_MAX || bestLeft < left)
    && (forall l, r :: 0 <= l < left && Covers(hits, n, l, r) ==> best <= hits[r].pos - hits[l].pos)
    && (forall l, r :: 0 <= l < left && l < bestLeft && Covers(hits, n, l, r) ==> best < hits[r].pos - hits[l].pos)
  }

  // one window more, starting at `left`, that covers only from `right` on
  lemma BetterOrNot(hits: seq<SpanHit>, n: nat, left: nat, right: nat, best: nat, bestLeft: nat, bestRight: nat)
    requires IsSorted(hits, PosOf) && Covers(hits, n, left, right) && !Covers(hits, n, left, right - 1)
    requires IsBestBefore(hits, n, left, best, bestLeft, bestRight)
    requires forall h :: h in hits ==> h.pos < SIZE_MAX
    ensures var span := hits[right].pos - hits[left].pos;
            && 0 <= span < SIZE_MAX
            && if span < best then IsBestBefore(hits, n, left + 1, span, left, right)
               else IsBestBefore(hits, n, left + 1, best, bestLeft, bestRight)
  {
    hide Covers, IsSorted, IsBestBefore;
    WindowSpan(hits, n, left, right);
    forall r | Covers(hits, n, left, r)
      ensures right <= r < |hits| && hits[right].pos <= hits[r].pos
    {
      TightestFrom(hits, n, left, right, r);
    }
    var span := hits[right].pos - hits[left].pos;
    if span < best {
      IsBetter(hits, n, left, right, best, bestLeft, bestRight);
    } else {
      IsNoBetter(hits, n, left, right, best, bestLeft, bestRight);
    }
  }

  lemma IsBetter(hits: seq<SpanHit>, n: nat, left: nat, right: nat, best: nat, bestLeft: nat, bestRight: nat)
    requires Covers(hits, n, left, right) && IsBestBefore(hits, n, left, best, bestLeft, bestRight)
    requires 0 <= hits[right].pos - hits[left].pos < best
    requires forall r :: Covers(hits, n, left, r) ==> right <= r < |hits| && hits[right].pos <= hits[r].pos
    ensures IsBestBefore(hits, n, left + 1, hits[right].pos - hits[left].pos, left, right)
  {
    hide HasTermIn;
  }

  lemma IsNoBetter(hits: seq<SpanHit>, n: nat, left: nat, right: nat, best: nat, bestLeft: nat, bestRight: nat)
    requires Covers(hits, n, left, right) && IsBestBefore(hits, n, left, best, bestLeft, bestRight)
    requires best <= hits[right].pos - hits[left].pos < SIZE_MAX
    requires forall r :: Covers(hits, n, left, r) ==> right <= r < |hits| && hits[right].pos <= hits[r].pos
    ensures IsBestBefore(hits, n, left + 1, best, bestLeft, bestRight)
  {
    hide HasTermIn;
  }

  lemma WindowSpan(hits: seq<SpanHit>, n: nat, l: int, r: int)
    requires IsSorted(hits, PosOf) && Covers(hits, n, l, r) && forall h :: h in hits ==> h.pos < SIZE_MAX
    ensures 0 <= l <= r < |hits| && 0 <= hits[r].pos - hits[l].pos < SIZE_MAX
  {
    assert hits[r] in hits;
    assert l < r ==> PosOf(hits[l]) <= PosOf(hits[r]);
  }

  lemma TightestFrom(hits: seq<SpanHit>, n: nat, left: nat, right: nat, r: int)
    requires IsSorted(hits, PosOf) && !Covers(hits, n, left, right - 1) && Covers(hits, n, left, right)
    requires Covers(hits, n, left, r)
    ensures right <= r < |hits| && hits[right].pos <= hits[r].pos
  {
    hide HasTermIn;
    if r < right {
      SmallerCoversLess(hits, n, left, right - 1, left, r);
    }
    assert right < r ==> PosOf(hits[right]) <= PosOf(hits[r]);
  }

  // ---- the search

  method MergeHits(positions: seq<seq<nat>>) returns (hits: seq<SpanHit>)
    ensures AreHitsOf(hits, positions)
  {
    hits := [];
    for t := 0 to |positions|
      invariant forall h :: h in hits ==> h.term < t && h.pos in positions[h.term]
      invariant forall u, p :: 0 <= u < t && p in positions[u] ==> SpanHit(p, u) in hits
    {
      for i := 0 to |positions[t]|
        invariant forall h :: h in hits ==> h.term <= t && h.pos in positions[h.term]
        invariant forall u, p :: 0 <= u < t && p in positions[u] ==> SpanHit(p, u) in hits
        invariant forall k :: 0 <= k < i ==> SpanHit(positions[t][k], t) in hits
      {
        hits := hits + [SpanHit(positions[t][i], t)];
      }
    }
  }

  // slide right, shrink left
  method BestWindow(hits: seq<SpanHit>, n: nat) returns (best: nat, bestLeft: nat, bestRight: nat)
    requires n > 0 && IsSorted(hits, PosOf) && forall h :: h in hits ==> h.term < n && h.pos < SIZE_MAX
    ensures IsBestBefore(hits, n, |hits|, best, bestLeft, bestRight)
  {
    hide Covers, IsSorted, AreCounts, Positive, IsBestBefore;
    var count: seq<nat> := seq(n, _ => 0);
    var covered := 0;
    best, bestLeft, bestRight := SIZE_MAX, 0, 0;
    var left := 0;
    NothingCovered(count, hits);
    for right := 0 to |hits|
      invariant left <= right && |count| == n && covered == Positive(count) < n
      invariant AreCounts(count, hits, left, right)
      invariant !Covers(hits, n, left, right - 1)
      invariant IsBestBefore(hits, n, left, best, bestLeft, bestRight)
    {
      var t := hits[right].term;
      assert hits[right] in hits;
      CountsGrow(count, hits, left, right);
      PositiveChange(count, t, count[t] + 1);
      count := count[t := count[t] + 1];
      if count[t] - 1 == 0 {
        covered := covered + 1;
      }
      CountsCover(count, hits, left, right + 1);
      while covered == n
        invariant left <= right + 1 && |count| == n && covered == Positive(count) <= n
        invariant AreCounts(count, hits, left, right + 1)
        invariant covered == n <==> Covers(hits, n, left, right)
        invariant !Covers(hits, n, left, right - 1)
        invariant IsBestBefore(hits, n, left, best, bestLeft, bestRight)
        decreases right + 1 - left
      {
        assert left <= right by { CoversNonempty(hits, n, left, right); }
        BetterOrNot(hits, n, left, right, best, bestLeft, bestRight);
        var span := hits[right].pos - hits[left].pos;
        if span < best {
          best, bestLeft, bestRight := span, left, right;
        }
        var u := hits[left].term;
        assert hits[left] in hits;
        CountsShrink(count, hits, left, right + 1);
        PositiveChange(count, u, count[u] - 1);
        count := count[u := count[u] - 1];
        if count[u] == 0 {
          covered := covered - 1;
        }
        StillUncovered(hits, n, left, right - 1);
        left := left + 1;
        AllPositive(count);
        CountsCover(count, hits, left, right + 1);
      }
      AllPositive(count);
    }
    NoneLater(hits, n, left, best, bestLeft, bestRight);
  }

  lemma CoversNonempty(hits: seq<SpanHit>, n: nat, l: int, r: int)
    requires Covers(hits, n, l, r)
    ensures 0 <= l <= r < |hits|
  {
  }

  lemma {:induction false} NoneIsPositive(count: seq<nat>)
    requires forall t :: 0 <= t < |count| ==> count[t] == 0
    ensures Positive(count) == 0
  {
    if count != [] {
      NoneIsPositive(count[..|count| - 1]);
    }
  }

  lemma NothingCovered(count: seq<nat>, hits: seq<SpanHit>)
    requires |count| > 0 && forall t :: 0 <= t < |count| ==> count[t] == 0
    ensures Positive(count) == 0 && AreCounts(count, hits, 0, 0) && !Covers(hits, |count|, 0, -1)
    ensures IsBestBefore(hits, |count|, 0, SIZE_MAX, 0, 0)
  {
    NoneIsPositive(count);
  }

  lemma StillUncovered(hits: seq<SpanHit>, n: nat, l: nat, r: int)
    requires !Covers(hits, n, l, r) && r < |hits|
    ensures !Covers(hits, n, l + 1, r)
  {
    hide Covers;
    if Covers(hits, n, l + 1, r) {
      SmallerCoversLess(hits, n, l, r, l + 1, r);
    }
  }

  lemma NoneLater(hits: seq<SpanHit>, n: nat, left: nat, best: nat, bestLeft: nat, bestRight: nat)
    requires IsBestBefore(hits, n, left, best, bestLeft, bestRight) && left <= |hits|
    requires !Covers(hits, n, left, |hits| - 1)
    ensures IsBestBefore(hits, n, |hits|, best, bestLeft, bestRight)
  {
    hide HasTermIn;
    forall l, r | left <= l < |hits| && Covers(hits, n, l, r) ensures false {
      SmallerCoversLess(hits, n, left, |hits| - 1, l, r);
    }
  }

  // ---- windows of hits and choices of positions

  // the window from the first to the last hit of a choice, over its first k terms
  lemma {:induction false} ChoiceHasWindow(hits: seq<SpanHit>, positions: seq<seq<nat>>, choice: seq<nat>, k: nat)
    returns (l: int, r: int, x: int, y: int)
    requires IsSorted(hits, PosOf) && AreHitsOf(hits, positions) && IsChoice(positions, choice)
    requires 0 < k <= |choice|
    ensures 0 <= x < k && 0 <= y < k && Covers(hits, k, l, r)
    ensures hits[l].pos == choice[x] && hits[r].pos == choice[y]
  {
    var t := k - 1;
    assert SpanHit(choice[t], t) in hits;
    var i :| 0 <= i < |hits| && hits[i] == SpanHit(choice[t], t);
    if k == 1 {
      l, r, x, y := i, i, t, t;
      assert HasTermIn(hits, l, r, t);
    } else {
      l, r, x, y := ChoiceHasWindow(hits, positions, choice, t);
      WiderWindow(hits, t, l, r, i);
      if i < l {
        l, x := i, t;
      }
      if i > r {
        r, y := i, t;
      }
    }
  }

  lemma WiderWindow(hits: seq<SpanHit>, t: nat, l: int, r: int, i: int)
    requires Covers(hits, t, l, r) && 0 <= i < |hits| && hits[i].term == t
    ensures Covers(hits, t + 1, if i < l then i else l, if i > r then i else r)
  {
    var l', r' := if i < l then i else l, if i > r then i else r;
    forall u | 0 <= u < t ensures HasTermIn(hits, l', r', u) {
      assert HasTermIn(hits, l, r, u);
    }
    assert HasTermIn(hits, l', r', t);
  }

  lemma {:induction false} WindowHasChoice(hits: seq<SpanHit>, positions: seq<seq<nat>>, l: int, r: int, k: nat)
    returns (choice: seq<nat>)
    requires IsSorted(hits, PosOf) && AreHitsOf(hits, positions) && Covers(hits, |positions|, l, r)
    requires k <= |positions|
    ensures |choice| == k
    ensures forall t :: 0 <= t < k ==> choice[t] in positions[t] && hits[l].pos <= choice[t] <= hits[r].pos
  {
    if k == 0 {
      return [];
    }
    choice := WindowHasChoice(hits, positions, l, r, k - 1);
    assert HasTermIn(hits, l, r, k - 1);
    var i :| l <= i <= r && hits[i].term == k - 1;
    assert hits[i] in hits;
    assert (l < i ==> PosOf(hits[l]) <= PosOf(hits[i])) && (i < r ==> PosOf(hits[i]) <= PosOf(hits[r]));
    choice := choice + [hits[i].pos];
  }

  lemma {:induction false} SomeChoice(positions: seq<seq<nat>>) returns (choice: seq<nat>)
    requires forall t :: 0 <= t < |positions| ==> positions[t] != []
    ensures IsChoice(positions, choice)
  {
    choice := seq(|positions|, t requires 0 <= t < |positions| => positions[t][0]);
  }

  // what the best of all windows of hits says of the positions
  ghost predicate IsBest(hits: seq<SpanHit>, positions: seq<seq<nat>>, best: nat, bestLeft: nat, bestRight: nat) {
    && AreHitsOf(hits, positions) && IsSorted(hits, PosOf)
    && (forall h :: h in hits ==> h.pos < SIZE_MAX)
    && IsBestBefore(hits, |positions|, |hits|, best, bestLeft, bestRight)
    && best < SIZE_MAX
  }

  lemma BestIsFound(hits: seq<SpanHit>, positions: seq<seq<nat>>, best: nat, bestLeft: nat, bestRight: nat)
    requires AreHitsOf(hits, positions) && IsSorted(hits, PosOf) && forall h :: h in hits ==> h.pos < SIZE_MAX
    requires IsBestBefore(hits, |positions|, |hits|, best, bestLeft, bestRight)
    requires positions != [] && forall t :: 0 <= t < |positions| ==> positions[t] != []
    ensures IsBest(hits, positions, best, bestLeft, bestRight)
  {
    hide HasTermIn;
    var choice := SomeChoice(positions);
    var l, r, x, y := ChoiceHasWindow(hits, positions, choice, |positions|);
    WindowSpan(hits, |positions|, l, r);
  }

  lemma NoChoiceIsTighter(hits: seq<SpanHit>, positions: seq<seq<nat>>, best: nat, bestLeft: nat, bestRight: nat,
                          choice: seq<nat>, w: nat)
    requires IsBest(hits, positions, best, bestLeft, bestRight) && positions != []
    requires IsChoice(positions, choice) && IsWithin(choice, w)
    ensures best <= w
  {
    hide HasTermIn, AreHitsOf, IsSorted;
    var l, r, x, y := ChoiceHasWindow(hits, positions, choice, |positions|);
    assert choice[y] - choice[x] <= w;
  }

  lemma NoChoiceIsEarlier(hits: seq<SpanHit>, positions: seq<seq<nat>>, best: nat, bestLeft: nat, bestRight: nat,
                          choice: seq<nat>, b: nat)
    requires IsBest(hits, positions, best, bestLeft, bestRight) && positions != [] && bestLeft < |hits|
    requires IsChoice(positions, choice) && forall t :: 0 <= t < |choice| ==> b <= choice[t] <= b + best
    ensures hits[bestLeft].pos <= b
  {
    hide HasTermIn, AreHitsOf, IsSorted;
    var l, r, x, y := ChoiceHasWindow(hits, positions, choice, |positions|);
    assert b <= choice[x] && choice[y] <= b + best;
    assert bestLeft <= l;
    InOrderOfIndex(hits, bestLeft, l);
  }

  lemma InOrderOfIndex(hits: seq<SpanHit>, i: int, j: int)
    requires IsSorted(hits, PosOf) && 0 <= i <= j < |hits|
    ensures hits[i].pos <= hits[j].pos
  {
    assert i < j ==> PosOf(hits[i]) <= PosOf(hits[j]);
  }

  lemma BestIsMinimal(hits: seq<SpanHit>, positions: seq<seq<nat>>, best: nat, bestLeft: nat, bestRight: nat)
    requires IsBest(hits, positions, best, bestLeft, bestRight) && positions != []
    ensures IsMinimalSpan(positions, best)
    ensures bestLeft <= bestRight < |hits| && IsLeftmostWindow(positions, hits[bestLeft].pos, best)
  {
    hide HasTermIn, IsSorted, IsBest;
    BestCovers(hits, positions, best, bestLeft, bestRight);
    WindowBounds(hits, |positions|, bestLeft, bestRight);
    var choice := WindowHasChoice(hits, positions, bestLeft, bestRight, |positions|);
    BestChoice(positions, choice, hits[bestLeft].pos, best);
    forall c, w: nat | IsChoice(positions, c) && IsWithin(c, w) ensures best <= w {
      NoChoiceIsTighter(hits, positions, best, bestLeft, bestRight, c, w);
    }
    forall b | 0 <= b && IsWindow(positions, b, best) ensures hits[bestLeft].pos <= b {
      var c := ChoiceInWindow(positions, b, best);
      NoChoiceIsEarlier(hits, positions, best, bestLeft, bestRight, c, b);
    }
  }

  lemma BestChoice(positions: seq<seq<nat>>, choice: seq<nat>, a: nat, span: nat)
    requires |choice| == |positions|
    requires forall t :: 0 <= t < |choice| ==> choice[t] in positions[t] && a <= choice[t] <= a + span
    ensures IsChoice(positions, choice) && IsWithin(choice, span) && IsWindow(positions, a, span)
  {
    forall t | 0 <= t < |positions| ensures HasFrom(positions[t], a, span) {
      assert choice[t] in positions[t];
    }
  }

  lemma ChoiceInWindow(positions: seq<seq<nat>>, a: nat, span: nat) returns (choice: seq<nat>)
    requires IsWindow(positions, a, span)
    ensures IsChoice(positions, choice) && IsWithin(choice, span)
    ensures forall t :: 0 <= t < |choice| ==> a <= choice[t] <= a + span
  {
    choice := [];
    for k := 0 to |positions|
      invariant |choice| == k
      invariant forall t :: 0 <= t < k ==> choice[t] in positions[t] && a <= choice[t] <= a + span
    {
      assert HasFrom(positions[k], a, span);
      var p :| p in positions[k] && a <= p <= a + span;
      choice := choice + [p];
    }
  }

  // ---- order within the best window

  // the first hit of a term among those from l up to r, exclusive
  ghost predicate IsFirstIn(hits: seq<SpanHit>, l: nat, r: nat, t: nat, first: nat)
    requires l <= r <= |hits|
  {
    if first == SIZE_MAX then forall i :: l <= i < r ==> hits[i].term != t
    else exists i :: l <= i < r && hits[i].term == t && hits[i].pos == first &&
                     forall j :: l <= j < i ==> hits[j].term != t
  }

  lemma FirstInOneMore(hits: seq<SpanHit>, l: nat, r: nat, t: nat, first: nat)
    requires l <= r < |hits| && IsFirstIn(hits, l, r, t, first) && hits[r].pos < SIZE_MAX
    ensures IsFirstIn(hits, l, r + 1, t, if first == SIZE_MAX && hits[r].term == t then hits[r].pos else first)
  {
  }

  lemma FirstInWindow(hits: seq<SpanHit>, positions: seq<seq<nat>>, best: nat, bestLeft: nat, bestRight: nat,
                      t: nat, first: nat)
    requires IsBest(hits, positions, best, bestLeft, bestRight) && t < |positions|
    requires bestLeft <= bestRight < |hits| && IsFirstIn(hits, bestLeft, bestRight + 1, t, first)
    requires forall p :: p in positions[t] ==> p < SIZE_MAX
    ensures first == FirstFrom(positions[t], hits[bestLeft].pos)
  {
    hide FirstFrom, IsSorted, IsBestBefore;
    var a := hits[bestLeft].pos;
    FirstFromIs(positions[t], a);
    assert HasTermIn(hits, bestLeft, bestRight, t) by { BestCovers(hits, positions, best, bestLeft, bestRight); }
    var i :| bestLeft <= i <= bestRight && hits[i].term == t && hits[i].pos == first &&
             forall j :: bestLeft <= j < i ==> hits[j].term != t;
    assert hits[i] in hits;
    InOrderOfIndex(hits, bestLeft, i);
    forall p | p in positions[t] && a <= p ensures first <= p {
      assert SpanHit(p, t) in hits;
      var j :| 0 <= j < |hits| && hits[j] == SpanHit(p, t);
      if j < bestLeft {
        NoTieBefore(hits, positions, best, bestLeft, bestRight, j);
      } else {
        InOrderOfIndex(hits, i, j);
      }
    }
  }

  lemma BestCovers(hits: seq<SpanHit>, positions: seq<seq<nat>>, best: nat, bestLeft: nat, bestRight: nat)
    requires IsBest(hits, positions, best, bestLeft, bestRight)
    ensures Covers(hits, |positions|, bestLeft, bestRight) && AreHitsOf(hits, positions) && IsSorted(hits, PosOf)
    ensures hits[bestRight].pos - hits[bestLeft].pos == best
    ensures forall l, r :: 0 <= l < bestLeft && Covers(hits, |positions|, l, r) ==> best < hits[r].pos - hits[l].pos
  {
    hide IsSorted, AreHitsOf, HasTermIn;
  }

  lemma NoTieBefore(hits: seq<SpanHit>, positions: seq<seq<nat>>, best: nat, bestLeft: nat, bestRight: nat, j: nat)
    requires IsBest(hits, positions, best, bestLeft, bestRight) && j < bestLeft < |hits|
    ensures hits[j].pos < hits[bestLeft].pos
  {
    hide IsBest, IsSorted, AreHitsOf, HasTermIn, Covers;
    BestCovers(hits, positions, best, bestLeft, bestRight);
    WindowBounds(hits, |positions|, bestLeft, bestRight);
    SmallerCoversLess(hits, |positions|, j, bestRight, bestLeft, bestRight);
  }

  lemma WindowBounds(hits: seq<SpanHit>, n: nat, l: int, r: int)
    requires Covers(hits, n, l, r)
    ensures 0 <= l <= r < |hits|
  {
  }

  method FirstPositions(hits: seq<SpanHit>, positions: seq<seq<nat>>, best: nat, bestLeft: nat, bestRight: nat)
    returns (firstPos: seq<nat>)
    requires IsBest(hits, positions, best, bestLeft, bestRight) && bestLeft <= bestRight < |hits|
    requires forall t, p :: 0 <= t < |positions| && p in positions[t] ==> p < SIZE_MAX
    ensures |firstPos| == |positions|
    ensures forall t :: 0 <= t < |positions| ==> firstPos[t] == FirstFrom(positions[t], hits[bestLeft].pos)
  {
    hide IsFirstIn, IsSorted, IsBestBefore, FirstFrom;
    firstPos := seq(|positions|, _ => SIZE_MAX);
    forall t | 0 <= t < |positions| ensures IsFirstIn(hits, bestLeft, bestLeft, t, firstPos[t]) {
      NoneYet(hits, bestLeft, t);
    }
    for i := bestLeft to bestRight + 1
      invariant |firstPos| == |positions|
      invariant forall t :: 0 <= t < |positions| ==> IsFirstIn(hits, bestLeft, i, t, firstPos[t])
    {
      assert hits[i] in hits;
      forall t | 0 <= t < |positions|
        ensures IsFirstIn(hits, bestLeft, i + 1, t,
                          if firstPos[t] == SIZE_MAX && hits[i].term == t then hits[i].pos else firstPos[t])
      {
        FirstInOneMore(hits, bestLeft, i, t, firstPos[t]);
      }
      if firstPos[hits[i].term] == SIZE_MAX {
        firstPos := firstPos[hits[i].term := hits[i].pos];
      }
    }
    forall t | 0 <= t < |positions| ensures firstPos[t] == FirstFrom(positions[t], hits[bestLeft].pos) {
      FirstInWindow(hits, positions, best, bestLeft, bestRight, t, firstPos[t]);
    }
  }

  lemma NoneYet(hits: seq<SpanHit>, l: nat, t: nat)
    requires l <= |hits|
    ensures IsFirstIn(hits, l, l, t, SIZE_MAX)
  {
  }

  // the minimum of max - min over all choices of a position for each term; the terms are in
  // order when their first positions from the start of the leftmost tightest window are
  method FindSpan(positions: seq<seq<nat>>) returns (r: SpanResult)
    requires forall t, p :: 0 <= t < |positions| && p in positions[t] ==> p < SIZE_MAX
    ensures r.found <==> positions != [] && forall t :: 0 <= t < |positions| ==> positions[t] != []
    ensures !r.found ==> r == SpanResult(false, 0, false, false)
    ensures r.found ==> IsMinimalSpan(positions, r.span)
    ensures r.found ==> exists a :: IsLeftmostWindow(positions, a, r.span) && (r.inOrder <==> InOrderFrom(positions, a))
    ensures r.found ==> (r.exactPhrase <==> r.span == |positions| - 1 && r.inOrder)
  {
    hide IsSorted, IsBest, AreHitsOf, IsBestBefore, IsMinimalSpan, FirstFrom, IsLeftmostWindow;
    if positions == [] {
      return SpanResult(false, 0, false, false);
    }
    for t := 0 to |positions|
      invariant forall u :: 0 <= u < t ==> positions[u] != []
    {
      if positions[t] == [] {
        return SpanResult(false, 0, false, false);
      }
    }
    if |positions| == 1 {
      OnePosition(positions);
      return SpanResult(true, 0, true, true);
    }
    var merged := MergeHits(positions);
    var hits := Sort(merged, PosOf);
    SortedHits(merged, hits, positions);
    var best, bestLeft, bestRight := BestWindow(hits, |positions|);
    BestIsFound(hits, positions, best, bestLeft, bestRight);
    BestIsMinimal(hits, positions, best, bestLeft, bestRight);
    var firstPos := FirstPositions(hits, positions, best, bestLeft, bestRight);
    var inOrder := true;
    for t := 1 to |positions|
      invariant inOrder
      invariant forall u :: 1 <= u < t ==> firstPos[u - 1] <= firstPos[u]
    {
      if firstPos[t] < firstPos[t - 1] {
        inOrder := false;
        break;
      }
    }
    OrderOfFirsts(firstPos, positions, hits[bestLeft].pos);
    return SpanResult(true, best, inOrder, best == |positions| - 1 && inOrder);
  }

  lemma OrderOfFirsts(firstPos: seq<nat>, positions: seq<seq<nat>>, a: nat)
    requires |firstPos| == |positions|
    requires forall t :: 0 <= t < |positions| ==> firstPos[t] == FirstFrom(positions[t], a)
    ensures InOrderFrom(positions, a) <==> forall t :: 1 <= t < |positions| ==> firstPos[t - 1] <= firstPos[t]
  {
    hide FirstFrom;
  }

  lemma SortedHits(merged: seq<SpanHit>, hits: seq<SpanHit>, positions: seq<seq<nat>>)
    requires AreHitsOf(merged, positions) && multiset(hits) == multiset(merged)
    requires forall t, p :: 0 <= t < |positions| && p in positions[t] ==> p < SIZE_MAX
    ensures AreHitsOf(hits, positions)
    ensures forall h :: h in hits ==> h.term < |positions| && h.pos < SIZE_MAX
  {
    forall h ensures h in hits <==> h in merged {
      SameElements(merged, hits, h);
    }
  }

  lemma OnePosition(positions: seq<seq<nat>>)
    requires |positions| == 1 && positions[0] != []
    requires forall p :: p in positions[0] ==> p < SIZE_MAX
    ensures IsMinimalSpan(positions, 0)
    ensures exists a :: IsLeftmostWindow(positions, a, 0) && InOrderFrom(positions, a)
  {
    hide FirstFrom;
    FirstFromIs(positions[0], 0);
    assert positions[0][0] in positions[0];
    var a := FirstFrom(positions[0], 0);
    assert IsChoice(positions, [a]) && IsWithin([a], 0);
    assert IsLeftmostWindow(positions, a, 0) && InOrderFrom(positions, a);
  }

  // ---- exact phrases

  // with no position shared by two terms, the phrase is reported exactly when it stands at
  // the start of the leftmost tightest window
  lemma ExactPhraseIs(positions: seq<seq<nat>>, a: nat, span: nat)
    requires AreDisjoint(positions) && IsMinimalSpan(positions, span) && IsLeftmostWindow(positions, a, span)
    requires forall t, p :: 0 <= t < |positions| && p in positions[t] ==> p < SIZE_MAX
    requires positions != []
    ensures span == |positions| - 1 && InOrderFrom(positions, a) <==> IsPhraseAt(positions, a)
  {
    hide IsMinimalSpan, IsLeftmostWindow;
    if span == |positions| - 1 && InOrderFrom(positions, a) {
      OrderedWindowIsPhrase(positions, a, span);
    }
    if IsPhraseAt(positions, a) {
      PhraseIsOrdered(positions, a);
      PhraseIsTightest(positions, a, span);
    }
  }

  lemma OrderedWindowIsPhrase(positions: seq<seq<nat>>, a: nat, span: nat)
    requires AreDisjoint(positions) && IsLeftmostWindow(positions, a, span) && InOrderFrom(positions, a)
    requires span == |positions| - 1
    requires forall t, p :: 0 <= t < |positions| && p in positions[t] ==> p < SIZE_MAX
    ensures IsPhraseAt(positions, a)
  {
    hide FirstFrom, AreDisjoint;
    forall t | 0 <= t < |positions|
      ensures FirstFrom(positions[t], a) in positions[t] && a <= FirstFrom(positions[t], a) <= a + span
    {
      FirstFromIs(positions[t], a);
    }
    forall t | 1 <= t < |positions| ensures FirstFrom(positions[t - 1], a) < FirstFrom(positions[t], a) {
      DisjointDiffer(positions, t - 1, t, FirstFrom(positions[t], a));
    }
    var first := seq(|positions|, t requires 0 <= t < |positions| => FirstFrom(positions[t], a));
    StrictlyUp(first, a);
    forall t | 0 <= t < |positions| ensures a + t in positions[t] {
      assert first[t] == a + t;
    }
  }

  lemma DisjointDiffer(positions: seq<seq<nat>>, s: nat, t: nat, p: nat)
    requires AreDisjoint(positions) && s < t < |positions| && p in positions[t]
    ensures p !in positions[s]
  {
  }

  // a strictly increasing run from at least a to at most a + |first| - 1 takes every value
  lemma StrictlyUp(first: seq<nat>, a: nat)
    requires forall t :: 1 <= t < |first| ==> first[t - 1] < first[t]
    requires forall t :: 0 <= t < |first| ==> a <= first[t] <= a + |first| - 1
    ensures forall t :: 0 <= t < |first| ==> first[t] == a + t
  {
    forall t | 0 <= t < |first| ensures first[t] == a + t {
      UpFromBelow(first, a, t);
      UpToAbove(first, a, t);
    }
  }

  lemma {:induction false} UpFromBelow(first: seq<nat>, a: nat, t: nat)
    requires t < |first| && a <= first[0] && forall u :: 1 <= u < |first| ==> first[u - 1] < first[u]
    ensures a + t <= first[t]
  {
    if t > 0 {
      UpFromBelow(first, a, t - 1);
      assert first[t - 1] < first[t];
    }
  }

  lemma {:induction false} UpToAbove(first: seq<nat>, a: nat, t: nat)
    requires t < |first| && first[|first| - 1] <= a + |first| - 1
    requires forall u :: 1 <= u < |first| ==> first[u - 1] < first[u]
    ensures first[t] <= a + t
    decreases |first| - t
  {
    if t + 1 < |first| {
      UpToAbove(first, a, t + 1);
      assert first[t + 1 - 1] < first[t + 1];
    }
  }

  lemma PhraseIsOrdered(positions: seq<seq<nat>>, a: nat)
    requires AreDisjoint(positions) && IsPhraseAt(positions, a)
    requires forall t, p :: 0 <= t < |positions| && p in positions[t] ==> p < SIZE_MAX
    ensures InOrderFrom(positions, a)
  {
    hide FirstFrom, AreDisjoint;
    forall t | 0 <= t < |positions| ensures FirstFrom(positions[t], a) == a + t {
      FirstFromIs(positions[t], a);
      var p := FirstFrom(positions[t], a);
      assert a + t in positions[t];
      if p < a + t {
        assert a + (p - a) in positions[p - a];
        DisjointDiffer(positions, p - a, t, p);
      }
    }
  }

  lemma PhraseIsTightest(positions: seq<seq<nat>>, a: nat, span: nat)
    requires AreDisjoint(positions) && IsPhraseAt(positions, a) && IsMinimalSpan(positions, span) && positions != []
    ensures span == |positions| - 1
  {
    hide AreDisjoint;
    var phrase := seq(|positions|, t => a + t);
    assert IsChoice(positions, phrase) && IsWithin(phrase, |positions| - 1);
    var choice :| IsChoice(positions, choice) && IsWithin(choice, span);
    forall s, t | 0 <= s < t < |choice| ensures choice[s] != choice[t] {
      DisjointDiffer(positions, s, t, choice[t]);
    }
    DistinctNeedRoom(choice, span);
  }

  // distinct numbers within w of each other are at most w + 1 many
  lemma DistinctNeedRoom(c: seq<nat>, w: nat)
    requires (forall s, t :: 0 <= s < t < |c| ==> c[s] != c[t]) && IsWithin(c, w) && c != []
    ensures |c| <= w + 1
  {
    hide Range, Elements;
    var i := LeastOf(c, |c|);
    DistinctCount(c);
    forall x | x in Elements(c) ensures x in Range(c[i], w + 1) {
      var j :| 0 <= j < |c| && c[j] == x;
      assert c[j] - c[i] <= w;
      RangeHas(c[i], w + 1, x);
    }
    RangeCount(c[i], w + 1);
    SubsetCount(Elements(c), Range(c[i], w + 1));
  }

  lemma {:induction false} LeastOf(c: seq<nat>, k: nat) returns (i: nat)
    requires 0 < k <= |c|
    ensures i < k && forall j :: 0 <= j < k ==> c[i] <= c[j]
  {
    if k == 1 {
      return 0;
    }
    i := LeastOf(c, k - 1);
    if c[k - 1] < c[i] {
      i := k - 1;
    }
  }

  function Range(lo: nat, n: nat): set<nat> {
    if n == 0 then {} else Range(lo, n - 1) + {lo + n - 1}
  }

  lemma {:induction false} RangeHas(lo: nat, n: nat, x: nat)
    ensures x in Range(lo, n) <==> lo <= x < lo + n
  {
    if n > 0 {
      RangeHas(lo, n - 1, x);
    }
  }

  lemma {:induction false} RangeCount(lo: nat, n: nat)
    ensures |Range(lo, n)| == n
  {
    if n > 0 {
      RangeCount(lo, n - 1);
      RangeHas(lo, n - 1, lo + n - 1);
    }
  }

  function Elements(c: seq<nat>): set<nat> {
    if c == [] then {} else Elements(c[..|c| - 1]) + {c[|c| - 1]}
  }

  lemma {:induction false} DistinctCount(c: seq<nat>)
    requires forall s, t :: 0 <= s < t < |c| ==> c[s] != c[t]
    ensures |Elements(c)| == |c| && forall x :: x in Elements(c) <==> x in c
  {
    if c != [] {
      var n := |c| - 1;
      DistinctCount(c[..n]);
      assert c == c[..n] + [c[n]];
      assert c[n] !in c[..n];
    }
  }

  lemma {:induction false} SubsetCount(a: set<nat>, b: set<nat>)
    requires a <= b
    ensures |a| <= |b|
  {
    assert b == a + (b - a);
  }

  // the phrase may stand in a later window and go unreported
  lemma LaterPhraseIsMissed()
    ensures var positions := [[1, 5], [0, 6]];
            && AreDisjoint(positions) && IsPhraseAt(positions, 5)
            && IsMinimalSpan(positions, 1) && IsLeftmostWindow(positions, 0, 1) && !InOrderFrom(positions, 0)
  {
    hide FirstFrom;
    var positions: seq<seq<nat>> := [[1, 5], [0, 6]];
    assert 5 in positions[0] && 6 in positions[1] && 1 in positions[0] && 0 in positions[1];
    assert IsChoice(positions, [5, 6]) && IsWithin([5, 6], 1);
    DisjointPairSpan(positions);
    FirstFromIs(positions[0], 0);
    FirstFromIs(positions[1], 0);
    assert FirstFrom(positions[1 - 1], 0) > FirstFrom(positions[1], 0);
  }

  lemma DisjointPairSpan(positions: seq<seq<nat>>)
    requires |positions| == 2 && AreDisjoint(positions)
    ensures forall choice, w: nat :: IsChoice(positions, choice) && IsWithin(choice, w) ==> 1 <= w
  {
    forall choice, w: nat | IsChoice(positions, choice) && IsWithin(choice, w) ensures 1 <= w {
      assert choice[0] - choice[1] <= w && choice[1] - choice[0] <= w;
      DisjointDiffer(positions, 0, 1, choice[1]);
    }
  }
}
