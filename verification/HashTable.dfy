/** The growing hash table of the dictionary: chained buckets, appended to on a miss, relinked
    on a resize. The table stands for a map from keys to entries, which are objects whose
    identity and value survive every operation. */
module HashTables {

  class Bucket<Key, Value> {
    var next: Bucket?<Key, Value>
    const hashValue: nat
    const key: Key
    var value: Value

    constructor (key: Key, hashValue: nat, value: Value)
      ensures this.key == key && this.hashValue == hashValue && this.value == value && next == null
    {
      this.key, this.hashValue, this.value, next := key, hashValue, value, null;
    }
  }

  // node j of a chain, or null past its end
  ghost function NodeAt<Key, Value>(nodes: seq<Bucket<Key, Value>>, j: nat): Bucket?<Key, Value> {
    if j < |nodes| then nodes[j] else null
  }

  // the linked list from `head` is `nodes`, and ends
  ghost predicate IsChain<Key, Value>(head: Bucket?<Key, Value>, nodes: seq<Bucket<Key, Value>>)
    reads nodes
  {
    && head == NodeAt(nodes, 0)
    && forall j :: 0 <= j < |nodes| ==> nodes[j].next == NodeAt(nodes, j + 1)
  }

  ghost predicate HasNoDuplicates<T>(s: seq<T>) {
    forall i, j :: 0 <= i < j < |s| ==> s[i] != s[j]
  }

  ghost predicate AreApart<T>(a: seq<T>, b: seq<T>) {
    forall i :: 0 <= i < |a| ==> a[i] !in b
  }

  // an entry sits, once, in the chain of its hash, and the chains hold nothing else
  ghost predicate AreEntries<Key, Value>(entries: map<Key, Bucket<Key, Value>>, chains: seq<seq<Bucket<Key, Value>>>,
                                         hash: Key -> nat)
  {
    && |chains| > 0
    && (forall i :: 0 <= i < |chains| ==> AreOfBucket(entries, chains[i], i, |chains|, hash))
    && (forall k :: k in entries ==> entries[k].key == k && entries[k] in chains[hash(k) % |chains|])
  }

  ghost predicate AreOfBucket<Key, Value>(entries: map<Key, Bucket<Key, Value>>, nodes: seq<Bucket<Key, Value>>,
                                          i: nat, n: nat, hash: Key -> nat)
    requires n > 0
  {
    && HasNoDuplicates(nodes)
    && forall node :: node in nodes ==>
         && node.key in entries && entries[node.key] == node
         && node.hashValue == hash(node.key) && node.hashValue % n == i
  }

  // the smallest number at or above x
  function Ceil(x: real): int { -((-x).Floor) }

  function SizeFor(keys: nat, loading: real): int {
    var target := Ceil(keys as real * loading);
    if target == 0 then 1 else target
  }

  lemma SizeIsPositive(keys: nat, loading: real)
    requires loading >= 0.0
    ensures SizeFor(keys, loading) > 0 && keys as real * loading <= SizeFor(keys, loading) as real
    ensures SizeFor(keys, loading) == 1 || SizeFor(keys, loading) as real < keys as real * loading + 1.0
    ensures loading >= 0.5 ==> keys <= 2 * SizeFor(keys, loading)
  {
    NotNegative(keys as real, loading);
    CeilIs(keys as real * loading);
    AtLeastHalf(keys as real, loading);
  }

  lemma AtLeastHalf(x: real, y: real)
    requires 0.0 <= x
    ensures y >= 0.5 ==> x <= 2.0 * (x * y)
  {
    if y >= 0.5 {
      NotNegative(x, y - 0.5);
    }
  }

  lemma NotNegative(x: real, y: real)
    requires 0.0 <= x && 0.0 <= y
    ensures 0.0 <= x * y
  {
  }

  lemma CeilIs(x: real)
    ensures x <= Ceil(x) as real < x + 1.0
  {
  }

  // every moved node is, once, in the chain of its hash, and nothing else is in any chain
  ghost predicate AreRehashed<Key, Value>(chains: seq<seq<Bucket<Key, Value>>>, moved: set<Bucket<Key, Value>>) {
    && |chains| > 0
    && forall b :: 0 <= b < |chains| ==> IsRehashed(chains[b], b, |chains|, moved)
  }

  ghost predicate IsRehashed<Key, Value>(nodes: seq<Bucket<Key, Value>>, b: nat, n: nat, moved: set<Bucket<Key, Value>>)
    requires n > 0
  {
    && HasNoDuplicates(nodes)
    && (forall node :: node in nodes ==> node in moved && node.hashValue % n == b)
    && (forall node :: node in moved && node.hashValue % n == b ==> node in nodes)
  }

  class HashTable<Key(==), Value> {
    var buckets: array<Bucket?<Key, Value>>
    var numberOfBuckets: nat
    const hash: Key -> nat
    var uniqueKeys: nat
    ghost var chains: seq<seq<Bucket<Key, Value>>>
    ghost var entries: map<Key, Bucket<Key, Value>>

    ghost predicate Valid()
      reads this, buckets, entries.Values
    {
      && buckets.Length == numberOfBuckets == |chains|
      && AreEntries(entries, chains, hash)
      && uniqueKeys == |entries|
      && forall i :: 0 <= i < numberOfBuckets ==> ChainsInEntries(i) && IsChain(buckets[i], chains[i])
    }

    // every node of chain i is an entry
    ghost predicate ChainsInEntries(i: nat)
      reads this
    {
      i < |chains| && forall node :: node in chains[i] ==> node in entries.Values
    }

    constructor (hash: Key -> nat, numberOfBuckets: nat)
      requires numberOfBuckets > 0
      ensures Valid() && entries == map[] && this.numberOfBuckets == numberOfBuckets && this.hash == hash
      ensures fresh(buckets)
    {
      this.hash, this.numberOfBuckets, uniqueKeys := hash, numberOfBuckets, 0;
      buckets := new Bucket?<Key, Value>[numberOfBuckets](_ => null);
      chains := seq(numberOfBuckets, _ => []);
      entries := map[];
    }

    // the lookup that never inserts
    method Lookup(k: Key) returns (entry: Bucket?<Key, Value>)
      requires Valid()
      ensures entry == if k in entries then entries[k] else null
    {
      var tail;
      entry, tail := Walk(k, hash(k) % numberOfBuckets);
    }

    // along the chain of the key: its entry, or the last node when there is none
    method Walk(k: Key, idx: nat) returns (entry: Bucket?<Key, Value>, tail: Bucket?<Key, Value>)
      requires Valid() && idx == hash(k) % numberOfBuckets
      ensures entry == if k in entries then entries[k] else null
      ensures entry == null ==>
                if chains[idx] == [] then tail == null else tail == chains[idx][|chains[idx]| - 1]
    {
      hide AreEntries, AreOfBucket, HasNoDuplicates, IsChain, HashTable.Valid;
      HasBuckets();
      BucketHolds(entries, chains, hash, k);
      ghost var nodes := chains[idx];
      ChainStarts(buckets[idx], nodes);
      entry, tail := buckets[idx], null;
      ghost var j := 0;
      while entry != null
        invariant 0 <= j <= |nodes| && entry == NodeAt(nodes, j) && IsChain(entry, nodes[j..])
        invariant j > 0 ==> tail == nodes[j - 1]
        invariant j == 0 ==> tail == null
        invariant forall i :: 0 <= i < j ==> nodes[i].key != k
        decreases |nodes| - j
      {
        ChainGoesOn(entry, nodes, j);
        if entry.key == k {
          return;
        }
        tail := entry;
        entry := entry.next;
        j := j + 1;
      }
    }

    // the lookup that inserts on a miss; a hit writes nothing
    method Find(k: Key, initialValue: Value) returns (entry: Bucket<Key, Value>)
      requires Valid()
      modifies if k in entries then {} else {this, buckets}, (if k in entries then {} else entries.Values)`next
      ensures Valid()
      ensures k in old(entries) ==> entry == old(entries)[k] && entries == old(entries)
      ensures k !in old(entries) ==>
                fresh(entry) && entry.value == initialValue && entries == old(entries)[k := entry]
      ensures old(uniqueKeys <= 2 * numberOfBuckets) ==> uniqueKeys <= 2 * numberOfBuckets
      ensures buckets == old(buckets) || fresh(buckets)
    {
      hide Valid, AreEntries, AreOfBucket, IsChain;
      var h := hash(k);
      assert numberOfBuckets > 0 by { HasBuckets(); }
      var idx := h % numberOfBuckets;
      var found, tail := Walk(k, idx);
      if found != null {
        return found;
      }
      entry := new Bucket(k, h, initialValue);
      Append(idx, tail, entry);
      if uniqueKeys > numberOfBuckets * 2 {
        Optimize(2.0);
      }
    }

    lemma HasBuckets()
      requires Valid()
      ensures buckets.Length == numberOfBuckets == |chains| > 0 && AreEntries(entries, chains, hash)
      ensures forall i :: 0 <= i < |chains| ==> IsChain(buckets[i], chains[i])
    {
    }

    method Append(idx: nat, tail: Bucket?<Key, Value>, entry: Bucket<Key, Value>)
      requires Valid() && entry.key !in entries && entry.hashValue == hash(entry.key) && entry.next == null
      requires entry !in entries.Values
      requires idx == hash(entry.key) % numberOfBuckets
      requires if chains[idx] == [] then tail == null else tail == chains[idx][|chains[idx]| - 1]
      modifies this`uniqueKeys, this`chains, this`entries, buckets, entries.Values`next
      ensures Valid() && entries == old(entries)[entry.key := entry]
      ensures uniqueKeys == old(uniqueKeys) + 1
    {
      hide AreEntries, AreOfBucket, IsChain;
      EntryIsNew(entries, chains, hash, entry);
      AnotherEntry(entries, chains, hash, entry);
      Link(idx, tail, entry);
      uniqueKeys := uniqueKeys + 1;
      chains := chains[idx := chains[idx] + [entry]];
      entries := entries[entry.key := entry];
      forall i | 0 <= i < numberOfBuckets ensures ChainsInEntries(i) {
        assert old(ChainsInEntries(i));
        InMoreEntries(old(entries), entry, chains[i]);
      }
    }

    // hang a node at the end of a chain
    method Link(idx: nat, tail: Bucket?<Key, Value>, entry: Bucket<Key, Value>)
      requires idx < buckets.Length == |chains| && entry.next == null && entry !in chains[idx]
      requires forall i :: 0 <= i < |chains| ==> IsChain(buckets[i], chains[i])
      requires forall i :: 0 <= i < |chains| && i != idx ==> AreApart(chains[i], chains[idx])
      requires HasNoDuplicates(chains[idx])
      requires if chains[idx] == [] then tail == null else tail == chains[idx][|chains[idx]| - 1]
      modifies buckets, chains[idx]`next
      ensures IsChain(buckets[idx], chains[idx] + [entry])
      ensures forall i :: 0 <= i < |chains| && i != idx ==> IsChain(buckets[i], chains[i])
    {
      if tail == null {
        buckets[idx] := entry;
      } else {
        tail.next := entry;
      }
    }

    // a new array of ceil(uniqueKeys * loading) buckets, at least one, and every node in it
    method Optimize(loading: real)
      requires Valid() && loading >= 0.0
      modifies this`buckets, this`numberOfBuckets, this`chains, entries.Values`next
      ensures Valid() && fresh(buckets) && numberOfBuckets == SizeFor(uniqueKeys, loading)
      ensures loading >= 0.5 ==> uniqueKeys <= 2 * numberOfBuckets
    {
      hide AreEntries, AreOfBucket, IsChain, SizeFor, AreRehashed, NodesBefore, HasNoDuplicates, NodeAt;
      SizeIsPositive(uniqueKeys, loading);
      ChainsAreApart(entries, chains, hash);
      var target := SizeFor(uniqueKeys, loading);
      var newBuckets := new Bucket?<Key, Value>[target](_ => null);
      ghost var newChains: seq<seq<Bucket<Key, Value>>> := seq(target, _ => []);
      NothingRehashed(newChains);
      NoneBefore(chains);
      for i := 0 to numberOfBuckets
        invariant |newChains| == target > 0
        invariant forall k :: i <= k < numberOfBuckets ==> IsChain(buckets[k], chains[k])
        invariant forall b :: 0 <= b < target ==> IsChain(newBuckets[b], newChains[b])
        invariant AreRehashed(newChains, NodesBefore(chains, i))
        modifies newBuckets, entries.Values`next
      {
        NotBefore(chains, i);
        assert ChainsInEntries(i);
        newChains := MoveChain(i, newBuckets, newChains, NodesBefore(chains, i));
        OneMoreBefore(chains, i);
      }
      RehashedAreEntries(entries, chains, newChains, hash);
      buckets, chains, numberOfBuckets := newBuckets, newChains, target;
      forall i | 0 <= i < numberOfBuckets ensures ChainsInEntries(i) {
        ChainsHoldEntries(entries, chains, hash, i);
      }
    }

    // the inner loop: push every node of one old chain onto its new one
    method MoveChain(i: nat, newBuckets: array<Bucket?<Key, Value>>, ghost newChains: seq<seq<Bucket<Key, Value>>>,
                     ghost moved: set<Bucket<Key, Value>>)
      returns (ghost chains': seq<seq<Bucket<Key, Value>>>)
      requires i < buckets.Length == |chains| && newBuckets != buckets && newBuckets.Length == |newChains|
      requires forall k :: i <= k < |chains| ==> IsChain(buckets[k], chains[k])
      requires forall k :: i < k < |chains| ==> AreApart(chains[k], chains[i])
      requires HasNoDuplicates(chains[i]) && forall node :: node in chains[i] ==> node !in moved
      requires |newChains| > 0 && AreRehashed(newChains, moved)
      requires forall b :: 0 <= b < |newChains| ==> IsChain(newBuckets[b], newChains[b])
      modifies newBuckets, chains[i]`next
      ensures |chains'| == |newChains| && AreRehashed(chains', moved + Members(chains[i]))
      ensures forall k :: i < k < |chains| ==> IsChain(buckets[k], chains[k])
      ensures forall b :: 0 <= b < |newChains| ==> IsChain(newBuckets[b], chains'[b])
    {
      hide IsChain, AreRehashed, IsRehashed, Members, AreApart;
      ghost var nodes := chains[i];
      chains' := newChains;
      var cur := buckets[i];
      ghost var j := 0;
      ChainStarts(buckets[i], nodes);
      NoMembers(moved);
      while cur != null
        invariant j <= |nodes| && cur == NodeAt(nodes, j) && |chains'| == |newChains|
        invariant IsChain(cur, nodes[j..])
        invariant AreRehashed(chains', moved + Members(nodes[..j]))
        invariant forall k :: i < k < |chains| ==> IsChain(buckets[k], chains[k])
        invariant forall b :: 0 <= b < |newChains| ==> IsChain(newBuckets[b], chains'[b])
        decreases |nodes| - j
      {
        ChainGoesOn(cur, nodes, j);
        NotMoved(chains', moved, nodes, j);
        var next := cur.next;
        var idx := cur.hashValue % newBuckets.Length;
        forall k | i < k < |chains| ensures cur !in chains[k] { InOneOnly(chains[k], nodes, j); }
        NotLater(nodes, j);
        PushFront(newBuckets, chains', idx, cur);
        OneMoreRehashed(chains', moved, nodes, j);
        chains' := chains'[idx := [cur] + chains'[idx]];
        cur := next;
        j := j + 1;
      }
      assert nodes[..j] == nodes;
    }

    method PushFront(newBuckets: array<Bucket?<Key, Value>>, ghost newChains: seq<seq<Bucket<Key, Value>>>,
                     idx: nat, cur: Bucket<Key, Value>)
      requires idx < newBuckets.Length == |newChains|
      requires forall b :: 0 <= b < |newChains| ==> cur !in newChains[b] && IsChain(newBuckets[b], newChains[b])
      modifies newBuckets, cur`next
      ensures IsChain(newBuckets[idx], [cur] + newChains[idx])
      ensures forall b :: 0 <= b < |newChains| && b != idx ==> IsChain(newBuckets[b], newChains[b])
      ensures forall b :: 0 <= b < newBuckets.Length && b != idx ==> newBuckets[b] == old(newBuckets[b])
    {
      cur.next := newBuckets[idx];
      newBuckets[idx] := cur;
    }
  }

  ghost function Members<T>(s: seq<T>): set<T> { set x | x in s }

  ghost function NodesBefore<T>(chains: seq<seq<T>>, i: nat): set<T>
    requires i <= |chains|
  {
    if i == 0 then {} else NodesBefore(chains, i - 1) + Members(chains[i - 1])
  }

  ghost predicate IsInSome<T>(chains: seq<seq<T>>, i: nat, x: T)
    requires i <= |chains|
  {
    exists k :: 0 <= k < i && x in chains[k]
  }

  lemma {:induction false} IsBefore<T>(chains: seq<seq<T>>, i: nat, x: T)
    requires i <= |chains|
    ensures x in NodesBefore(chains, i) <==> IsInSome(chains, i, x)
  {
    if i > 0 {
      IsBefore(chains, i - 1, x);
    }
  }

  lemma NotBefore<T>(chains: seq<seq<T>>, i: nat)
    requires i < |chains| && forall k :: 0 <= k < i ==> AreApart(chains[k], chains[i])
    ensures forall x :: x in chains[i] ==> x !in NodesBefore(chains, i)
  {
    forall x | x in chains[i] ensures x !in NodesBefore(chains, i) {
      IsBefore(chains, i, x);
    }
  }

  lemma OneMoreBefore<T>(chains: seq<seq<T>>, i: nat)
    requires i < |chains|
    ensures NodesBefore(chains, i + 1) == NodesBefore(chains, i) + Members(chains[i])
  {
  }

  lemma NoMembers<T>(s: set<T>)
    ensures s + Members([]) == s
  {
  }

  lemma InOneOnly<T>(a: seq<T>, b: seq<T>, j: nat)
    requires AreApart(a, b) && j < |b|
    ensures b[j] !in a
  {
  }

  lemma NotLater<T>(nodes: seq<T>, j: nat)
    requires HasNoDuplicates(nodes) && j < |nodes|
    ensures nodes[j] !in nodes[j + 1..]
  {
  }

  lemma ChainStarts<Key, Value>(head: Bucket?<Key, Value>, nodes: seq<Bucket<Key, Value>>)
    requires IsChain(head, nodes)
    ensures head == NodeAt(nodes, 0) && nodes[0..] == nodes && nodes[..0] == []
  {
  }

  lemma ChainGoesOn<Key, Value>(cur: Bucket<Key, Value>, nodes: seq<Bucket<Key, Value>>, j: nat)
    requires cur == NodeAt(nodes, j) && IsChain(cur, nodes[j..])
    ensures j < |nodes| && cur == nodes[j] && cur in nodes
    ensures cur.next == NodeAt(nodes, j + 1) && IsChain(cur.next, nodes[j + 1..])
  {
    assert nodes[j..][0].next == NodeAt(nodes[j..], 1);
    var from, rest := nodes[j..], nodes[j + 1..];
    forall k | 0 <= k < |rest| ensures rest[k].next == NodeAt(rest, k + 1) {
      assert from[k + 1].next == NodeAt(from, k + 2);
    }
  }

  lemma NothingRehashed<Key, Value>(chains: seq<seq<Bucket<Key, Value>>>)
    requires |chains| > 0 && forall b :: 0 <= b < |chains| ==> chains[b] == []
    ensures AreRehashed(chains, {}) && forall b :: 0 <= b < |chains| ==> IsChain(null, chains[b])
  {
  }

  lemma NoneBefore<T>(chains: seq<seq<T>>)
    ensures NodesBefore(chains, 0) == {}
  {
  }

  // the next node to move is in no new chain yet
  lemma NotMoved<Key, Value>(chains: seq<seq<Bucket<Key, Value>>>, moved: set<Bucket<Key, Value>>,
                             nodes: seq<Bucket<Key, Value>>, j: nat)
    requires j < |nodes| && AreRehashed(chains, moved + Members(nodes[..j])) && HasNoDuplicates(nodes)
    requires nodes[j] !in moved
    ensures forall b :: 0 <= b < |chains| ==> nodes[j] !in chains[b]
  {
    forall b | 0 <= b < |chains| ensures nodes[j] !in chains[b] {
      assert IsRehashed(chains[b], b, |chains|, moved + Members(nodes[..j]));
    }
  }

  lemma OneMoreRehashed<Key, Value>(chains: seq<seq<Bucket<Key, Value>>>, moved: set<Bucket<Key, Value>>,
                                    nodes: seq<Bucket<Key, Value>>, j: nat)
    requires j < |nodes| && AreRehashed(chains, moved + Members(nodes[..j])) && HasNoDuplicates(nodes)
    requires nodes[j] !in moved
    ensures var idx := nodes[j].hashValue % |chains|;
            AreRehashed(chains[idx := [nodes[j]] + chains[idx]], moved + Members(nodes[..j + 1]))
  {
    hide HasNoDuplicates;
    var idx := nodes[j].hashValue % |chains|;
    var before, after := moved + Members(nodes[..j]), moved + Members(nodes[..j + 1]);
    assert after == before + {nodes[j]};
    NotMoved(chains, moved, nodes, j);
    forall b | 0 <= b < |chains|
      ensures IsRehashed(if b == idx then [nodes[j]] + chains[b] else chains[b], b, |chains|, after)
    {
      assert IsRehashed(chains[b], b, |chains|, before);
      if b == idx {
        NewFirst(chains[b], nodes[j]);
      }
    }
  }

  lemma NewFirst<T>(s: seq<T>, x: T)
    requires HasNoDuplicates(s) && x !in s
    ensures HasNoDuplicates([x] + s)
  {
  }

  lemma ChainsAreApart<Key, Value>(entries: map<Key, Bucket<Key, Value>>, chains: seq<seq<Bucket<Key, Value>>>,
                                   hash: Key -> nat)
    requires AreEntries(entries, chains, hash)
    ensures |chains| > 0 && forall i :: 0 <= i < |chains| ==> HasNoDuplicates(chains[i])
    ensures forall i, j :: 0 <= i < |chains| && 0 <= j < |chains| && i != j ==> AreApart(chains[i], chains[j])
  {
    forall i | 0 <= i < |chains| ensures AreOfBucket(entries, chains[i], i, |chains|, hash) {}
  }

  lemma ChainsHoldEntries<Key, Value>(entries: map<Key, Bucket<Key, Value>>, chains: seq<seq<Bucket<Key, Value>>>,
                                      hash: Key -> nat, i: nat)
    requires AreEntries(entries, chains, hash) && i < |chains|
    ensures forall node :: node in chains[i] ==> node in entries.Values
  {
    assert AreOfBucket(entries, chains[i], i, |chains|, hash);
  }

  // all the nodes of the old chains, rehashed, are the entries again
  lemma RehashedAreEntries<Key, Value>(entries: map<Key, Bucket<Key, Value>>, chains: seq<seq<Bucket<Key, Value>>>,
                                       newChains: seq<seq<Bucket<Key, Value>>>, hash: Key -> nat)
    requires AreEntries(entries, chains, hash) && AreRehashed(newChains, NodesBefore(chains, |chains|))
    ensures AreEntries(entries, newChains, hash)
  {
    hide HasNoDuplicates, NodesBefore;
    var moved: set<Bucket<Key, Value>> := NodesBefore(chains, |chains|);
    var n := |newChains|;
    forall node: Bucket<Key, Value> | node in moved
      ensures node.key in entries && entries[node.key] == node && node.hashValue == hash(node.key)
    {
      IsBefore(chains, |chains|, node);
      assert IsInSome(chains, |chains|, node);
      var k :| 0 <= k < |chains| && node in chains[k];
      assert AreOfBucket(entries, chains[k], k, |chains|, hash);
    }
    forall b | 0 <= b < n ensures AreOfBucket(entries, newChains[b], b, n, hash) {
      assert IsRehashed(newChains[b], b, n, moved);
    }
    forall k | k in entries ensures entries[k] in newChains[hash(k) % n] {
      IsBefore(chains, |chains|, entries[k]);
      assert entries[k] in chains[hash(k) % |chains|];
      assert IsRehashed(newChains[hash(k) % n], hash(k) % n, n, moved);
    }
  }

  lemma InMoreEntries<Key, Value>(entries: map<Key, Bucket<Key, Value>>, entry: Bucket<Key, Value>,
                                  nodes: seq<Bucket<Key, Value>>)
    requires entry.key !in entries && forall node :: node in nodes ==> node in entries.Values || node == entry
    ensures forall node :: node in nodes ==> node in entries[entry.key := entry].Values
  {
    var more := entries[entry.key := entry];
    forall node | node in entries.Values ensures node in more.Values {
      var k :| k in entries && entries[k] == node;
      assert more[k] == node;
    }
    assert more[entry.key] == entry;
  }

  // where the entry of a key must be
  lemma BucketHolds<Key, Value>(entries: map<Key, Bucket<Key, Value>>, chains: seq<seq<Bucket<Key, Value>>>,
                                hash: Key -> nat, k: Key)
    requires AreEntries(entries, chains, hash)
    ensures |chains| > 0
    ensures forall node :: node in chains[hash(k) % |chains|] ==> node.key in entries && entries[node.key] == node
    ensures k in entries ==> entries[k].key == k && entries[k] in chains[hash(k) % |chains|]
  {
    assert AreOfBucket(entries, chains[hash(k) % |chains|], hash(k) % |chains|, |chains|, hash);
  }

  lemma EntryIsNew<Key, Value>(entries: map<Key, Bucket<Key, Value>>, chains: seq<seq<Bucket<Key, Value>>>,
                               hash: Key -> nat, entry: Bucket<Key, Value>)
    requires AreEntries(entries, chains, hash) && entry.key !in entries
    ensures |chains| > 0
    ensures forall i :: 0 <= i < |chains| ==> entry !in chains[i] && HasNoDuplicates(chains[i])
    ensures forall i, j :: 0 <= i < |chains| && 0 <= j < |chains| && i != j ==> AreApart(chains[i], chains[j])
  {
    forall i | 0 <= i < |chains| ensures AreOfBucket(entries, chains[i], i, |chains|, hash) {}
  }

  lemma AnotherEntry<Key, Value>(entries: map<Key, Bucket<Key, Value>>, chains: seq<seq<Bucket<Key, Value>>>,
                                 hash: Key -> nat, entry: Bucket<Key, Value>)
    requires AreEntries(entries, chains, hash) && entry.key !in entries && entry.hashValue == hash(entry.key)
    ensures var idx := hash(entry.key) % |chains|;
            AreEntries(entries[entry.key := entry], chains[idx := chains[idx] + [entry]], hash)
  {
    var idx := hash(entry.key) % |chains|;
    var more, longer := entries[entry.key := entry], chains[idx := chains[idx] + [entry]];
    EntryIsNew(entries, chains, hash, entry);
    forall i | 0 <= i < |chains| ensures AreOfBucket(more, longer[i], i, |chains|, hash) {
      assert AreOfBucket(entries, chains[i], i, |chains|, hash);
    }
    forall k | k in more ensures more[k].key == k && more[k] in longer[hash(k) % |chains|] {}
  }

  // ---- iteration

  // the chains from i on, one after the other
  ghost function Flat<T>(chains: seq<seq<T>>, i: nat): seq<T>
    decreases |chains| - i
  {
    if i >= |chains| then [] else chains[i] + Flat(chains, i + 1)
  }

  class Iterator<Key(==), Value> {
    const table: HashTable<Key, Value>
    var bucket: nat
    var b: Bucket?<Key, Value>
    ghost var j: nat  // where b stands in its chain

    ghost predicate Valid()
      reads this, table, table.buckets, table.entries.Values
    {
      && table.Valid()
      && if b == null then bucket == table.numberOfBuckets
         else bucket < table.numberOfBuckets && j < |table.chains[bucket]| && b == table.chains[bucket][j]
    }

    // the entries from here on
    ghost function Rest(): seq<Bucket<Key, Value>>
      requires Valid()
      reads this, table, table.buckets, table.entries.Values
    {
      if b == null then [] else table.chains[bucket][j..] + Flat(table.chains, bucket + 1)
    }

    constructor (table: HashTable<Key, Value>, bucket: nat, b: Bucket?<Key, Value>, ghost j: nat)
      ensures this.table == table && this.bucket == bucket && this.b == b && this.j == j
    {
      this.table, this.bucket, this.b, this.j := table, bucket, b, j;
    }

    predicate Equals(that: Iterator<Key, Value>)
      reads this, that
    {
      table == that.table && bucket == that.bucket && b == that.b
    }

    lemma HeadOfRest()
      requires Valid()
      ensures b == null <==> bucket == table.numberOfBuckets
      ensures b == null ==> Rest() == []
      ensures b != null ==> |Rest()| > 0 && Rest()[0] == b && Rest() == [b] + Rest()[1..]
    {
      hide HashTable.Valid;
    }

    // operator++
    method Next()
      requires Valid() && b != null
      modifies this
      ensures Valid() && Rest() == old(Rest())[1..]
    {
      hide HashTable.Valid, HashTable.ChainsInEntries, AreEntries, IsChain, Flat, NodeAt;
      TableFacts(table);
      FlatEnds(table.chains);
      ghost var nodes := table.chains[bucket];
      ghost var rest := Rest();
      NextInChain(table, bucket, j);
      TailOfRest(nodes, j, Flat(table.chains, bucket + 1));
      if b.next != null {
        b := b.next;
        j := j + 1;
        return;
      }
      bucket := bucket + 1;
      while bucket < table.numberOfBuckets && table.buckets[bucket] == null
        invariant bucket <= table.numberOfBuckets
        invariant Flat(table.chains, bucket) == rest[1..]
      {
        EmptyBucket(table, bucket);
        bucket := bucket + 1;
      }
      b := null;
      j := 0;
      if bucket < table.numberOfBuckets {
        HeadOfBucket(table, bucket);
        b := table.buckets[bucket];
      }
    }
  }

  lemma TailOfRest<T>(nodes: seq<T>, j: nat, later: seq<T>)
    requires j < |nodes|
    ensures (nodes[j..] + later)[1..] == nodes[j + 1..] + later
    ensures j + 1 == |nodes| ==> nodes[j + 1..] + later == later
  {
  }

  lemma FlatEnds<T>(chains: seq<seq<T>>)
    ensures Flat(chains, |chains|) == []
  {
  }

  lemma NextInChain<Key, Value>(table: HashTable<Key, Value>, i: nat, j: nat)
    requires table.Valid() && i < table.numberOfBuckets && j < |table.chains[i]|
    ensures |table.chains| == table.numberOfBuckets == table.buckets.Length
    ensures table.chains[i][j].next == if j + 1 < |table.chains[i]| then table.chains[i][j + 1] else null
    ensures j + 1 == |table.chains[i]| ==> table.chains[i][j + 1..] == []
  {
    assert IsChain(table.buckets[i], table.chains[i]);
  }

  lemma EmptyBucket<Key, Value>(table: HashTable<Key, Value>, i: nat)
    requires table.Valid() && i < table.numberOfBuckets && i < table.buckets.Length && table.buckets[i] == null
    ensures i < |table.chains| && Flat(table.chains, i) == Flat(table.chains, i + 1)
  {
    assert IsChain(table.buckets[i], table.chains[i]);
    assert table.chains[i] == [];
  }

  lemma HeadOfBucket<Key, Value>(table: HashTable<Key, Value>, i: nat)
    requires table.Valid() && i < table.numberOfBuckets && i < table.buckets.Length && table.buckets[i] != null
    ensures i < |table.chains| && |table.chains[i]| > 0 && table.buckets[i] == table.chains[i][0]
    ensures Flat(table.chains, i) == table.chains[i][0..] + Flat(table.chains, i + 1)
  {
    assert IsChain(table.buckets[i], table.chains[i]);
  }

  method Begin<Key(==), Value>(table: HashTable<Key, Value>) returns (it: Iterator<Key, Value>)
    requires table.Valid()
    ensures fresh(it) && it.Valid() && it.table == table && it.Rest() == Flat(table.chains, 0)
  {
    hide HashTable.Valid;
    TableFacts(table);
    if table.uniqueKeys == 0 {
      NoEntries(table);
      it := End(table);
      return;
    }
    var i := 0;
    while i < table.numberOfBuckets && table.buckets[i] == null
      invariant i <= table.numberOfBuckets && Flat(table.chains, i) == Flat(table.chains, 0)
    {
      EmptyBucket(table, i);
      i := i + 1;
    }
    if i == table.numberOfBuckets {
      it := End(table);
      return;
    }
    HeadOfBucket(table, i);
    it := new Iterator(table, i, table.buckets[i], 0);
  }

  method End<Key(==), Value>(table: HashTable<Key, Value>) returns (it: Iterator<Key, Value>)
    requires table.Valid()
    ensures fresh(it) && it.Valid() && it.table == table && it.b == null && it.bucket == table.numberOfBuckets
    ensures it.Rest() == []
  {
    hide HashTable.Valid;
    it := new Iterator(table, table.numberOfBuckets, null, 0);
  }

  lemma TableFacts<Key, Value>(table: HashTable<Key, Value>)
    requires table.Valid()
    ensures table.buckets.Length == table.numberOfBuckets == |table.chains| > 0
  {
  }

  lemma NoKeys<Key, Value>(table: HashTable<Key, Value>)
    requires table.Valid() && table.uniqueKeys == 0
    ensures table.entries == map[]
  {
  }

  lemma NoEntries<Key, Value>(table: HashTable<Key, Value>)
    requires table.Valid() && table.uniqueKeys == 0
    ensures Flat(table.chains, 0) == []
  {
    hide HashTable.Valid, Flat;
    FlatIsEntries(table);
    assert table.entries == map[] by { NoKeys(table); }
    var all := Flat(table.chains, 0);
    FirstIsIn(all);
  }

  lemma FirstIsIn<T>(s: seq<T>)
    ensures s != [] ==> s[0] in s
  {
  }

  // the loop over the whole table
  method AllEntries<Key(==), Value>(table: HashTable<Key, Value>) returns (all: seq<Bucket<Key, Value>>)
    requires table.Valid()
    ensures HasNoDuplicates(all)
    ensures forall node :: node in all ==> node.key in table.entries && table.entries[node.key] == node
    ensures forall k :: k in table.entries ==> table.entries[k] in all
  {
    hide HashTable.Valid, Flat, Iterator.Valid, Iterator.Rest, HasNoDuplicates;
    all := [];
    var it := Begin(table);
    var end := End(table);
    FlatIsEntries(table);
    ghost var flat := Flat(table.chains, 0);
    while !it.Equals(end)
      invariant fresh(it) && it.Valid() && it.table == table
      invariant it != end && end.table == table && end.b == null && end.bucket == table.numberOfBuckets
      invariant all + it.Rest() == flat
      decreases |it.Rest()|
    {
      it.HeadOfRest();
      assert it.b != null;
      assert all + it.Rest() == all + [it.b] + it.Rest()[1..];
      all := all + [it.b];
      it.Next();
    }
    it.HeadOfRest();
    assert all == flat;
  }

  // walking every chain meets every entry exactly once
  lemma FlatIsEntries<Key, Value>(table: HashTable<Key, Value>)
    requires table.Valid()
    ensures HasNoDuplicates(Flat(table.chains, 0))
    ensures forall node :: node in Flat(table.chains, 0) ==>
              node.key in table.entries && table.entries[node.key] == node
    ensures forall k :: k in table.entries ==> table.entries[k] in Flat(table.chains, 0)
  {
    hide IsChain;
    ChainsAreApart(table.entries, table.chains, table.hash);
    FlatHasNoDuplicates(table.chains, 0);
    forall node: Bucket<Key, Value> | node in Flat(table.chains, 0)
      ensures node.key in table.entries && table.entries[node.key] == node
    {
      InFlat(table.chains, 0, node);
      var i :| 0 <= i < |table.chains| && node in table.chains[i];
      assert AreOfBucket(table.entries, table.chains[i], i, |table.chains|, table.hash);
    }
    forall k | k in table.entries ensures table.entries[k] in Flat(table.chains, 0) {
      var i := table.hash(k) % |table.chains|;
      assert table.entries[k] in table.chains[i];
      InFlat(table.chains, 0, table.entries[k]);
    }
  }

  lemma {:induction false} InFlat<T>(chains: seq<seq<T>>, i: nat, x: T)
    ensures x in Flat(chains, i) <==> exists k :: i <= k < |chains| && x in chains[k]
    decreases |chains| - i
  {
    if i < |chains| {
      InFlat(chains, i + 1, x);
      FlatStep(chains, i, x);
      hide Flat;
    }
  }

  lemma FlatStep<T>(chains: seq<seq<T>>, i: nat, x: T)
    requires i < |chains|
    ensures x in Flat(chains, i) <==> x in chains[i] || x in Flat(chains, i + 1)
  {
  }

  lemma {:induction false} FlatHasNoDuplicates<T>(chains: seq<seq<T>>, i: nat)
    requires forall k :: i <= k < |chains| ==> HasNoDuplicates(chains[k])
    requires forall k, l :: i <= k < |chains| && i <= l < |chains| && k != l ==> AreApart(chains[k], chains[l])
    ensures HasNoDuplicates(Flat(chains, i))
    decreases |chains| - i
  {
    if i < |chains| {
      FlatHasNoDuplicates(chains, i + 1);
      forall j | 0 <= j < |chains[i]| ensures chains[i][j] !in Flat(chains, i + 1) {
        InFlat(chains, i + 1, chains[i][j]);
      }
      JoinedHasNoDuplicates(chains[i], Flat(chains, i + 1));
    }
  }

  lemma JoinedHasNoDuplicates<T>(a: seq<T>, b: seq<T>)
    requires HasNoDuplicates(a) && HasNoDuplicates(b) && AreApart(a, b)
    ensures HasNoDuplicates(a + b)
  {
  }
}
