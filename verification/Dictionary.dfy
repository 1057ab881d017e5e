/** The dictionary of an index builder on its hash table: after any run of lookups, inserts,
    updates and resizes the table holds what a map holds after the same run. */
module Dictionaries {
  import opened Posting
  import opened BlobFormat
  import opened Storage
  import opened HashTables

  // what a table holds
  ghost function Contents<Key, Value>(table: HashTable<Key, Value>): map<Key, Value>
    reads table, table.entries.Values
  {
    map k | k in table.entries :: table.entries[k].value
  }

  datatype Call<Key, Value> =
    | FindOrAdd(key: Key, initialValue: Value)
    | Update(key: Key, value: Value)
    | Resize(loading: real)

  // the same calls on a map: an update of a missing key, and a resize, change nothing
  function After<Key, Value>(m: map<Key, Value>, call: Call<Key, Value>): map<Key, Value> {
    match call
    case FindOrAdd(key, initialValue) => if key in m then m else m[key := initialValue]
    case Update(key, value) => if key in m then m[key := value] else m
    case Resize(_) => m
  }

  function AfterAll<Key, Value>(m: map<Key, Value>, calls: seq<Call<Key, Value>>): map<Key, Value> {
    if calls == [] then m else After(AfterAll(m, calls[..|calls| - 1]), calls[|calls| - 1])
  }

  // at most two keys a bucket, on average: what bounds the length of a chain
  predicate IsLoaded<Key, Value>(table: HashTable<Key, Value>)
    reads table
  {
    table.uniqueKeys <= 2 * table.numberOfBuckets
  }

  ghost predicate Keeps<Key, Value>(table: HashTable<Key, Value>, entries: map<Key, Bucket<Key, Value>>)
    reads table
  {
    forall k :: k in entries ==> k in table.entries && table.entries[k] == entries[k]
  }

  method Step<Key(==), Value>(table: HashTable<Key, Value>, call: Call<Key, Value>)
    requires table.Valid() && IsLoaded(table) && (call.Resize? ==> call.loading >= 0.5)
    modifies table, table.buckets, table.entries.Values
    ensures table.Valid() && IsLoaded(table)
    ensures Contents(table) == After(old(Contents(table)), call)
    ensures Keeps(table, old(table.entries))
    ensures table.buckets == old(table.buckets) || fresh(table.buckets)
    ensures forall k :: k in table.entries ==> k in old(table.entries) || fresh(table.entries[k])
  {
    hide HashTable.Valid;
    match call
    case FindOrAdd(key, initialValue) =>
      var _ := table.Find(key, initialValue);
    case Update(key, value) =>
      EntriesHaveKeys(table);
      var entry := table.Lookup(key);
      if entry != null {
        Write(table, entry, value);
      }
    case Resize(loading) =>
      table.Optimize(loading);
  }

  // the value of an entry is written through the pointer that a lookup gave
  method Write<Key(==), Value>(table: HashTable<Key, Value>, entry: Bucket<Key, Value>, value: Value)
    requires table.Valid() && entry.key in table.entries && table.entries[entry.key] == entry
    modifies entry`value
    ensures table.Valid() && Contents(table) == old(Contents(table))[entry.key := value]
  {
    hide AreEntries, AreOfBucket;
    EntriesHaveKeys(table);
    entry.value := value;
  }

  lemma EntriesHaveKeys<Key, Value>(table: HashTable<Key, Value>)
    requires table.Valid()
    ensures forall k :: k in table.entries ==> table.entries[k].key == k
    ensures forall k :: k in table.entries ==> table.entries[k].hashValue == table.hash(k)
  {
    forall k | k in table.entries ensures table.entries[k].hashValue == table.hash(k) {
      var i := table.hash(k) % |table.chains|;
      assert AreOfBucket(table.entries, table.chains[i], i, |table.chains|, table.hash);
    }
  }

  // any run of calls, in any order
  method Run<Key(==), Value>(table: HashTable<Key, Value>, calls: seq<Call<Key, Value>>)
    requires table.Valid() && IsLoaded(table)
    requires forall c :: c in calls && c.Resize? ==> c.loading >= 0.5
    modifies table, table.buckets, table.entries.Values
    ensures table.Valid() && IsLoaded(table)
    ensures Contents(table) == AfterAll(old(Contents(table)), calls)
    ensures Keeps(table, old(table.entries))
  {
    hide HashTable.Valid, Contents;
    for i := 0 to |calls|
      invariant table.Valid() && IsLoaded(table)
      invariant Contents(table) == AfterAll(old(Contents(table)), calls[..i])
      invariant Keeps(table, old(table.entries))
      invariant table.buckets == old(table.buckets) || fresh(table.buckets)
      invariant forall k :: k in table.entries ==> k in old(table.entries) || fresh(table.entries[k])
    {
      assert calls[..i + 1][..i] == calls[..i];
      Step(table, calls[i]);
    }
    assert calls[..|calls|] == calls;
  }

  // the loop over the dictionary, on the table
  method GatherFromTable(table: HashTable<string, PostingList>) returns (entries: seq<Entry>)
    requires table.Valid()
    ensures AreEntriesOf(entries, Contents(table), table.hash)
  {
    hide HashTable.Valid;
    EntriesHaveKeys(table);
    var all := AllEntries(table);
    entries := [];
    for i := 0 to |all|
      invariant |entries| == i
      invariant forall j :: 0 <= j < i ==> entries[j] == Entry(all[j].key, all[j].value, all[j].hashValue)
    {
      entries := entries + [Entry(all[i].key, all[i].value, all[i].hashValue)];
    }
    forall k | k in table.entries ensures exists i :: 0 <= i < |entries| && entries[i].term == k {
      var i :| 0 <= i < |all| && all[i] == table.entries[k];
      assert entries[i].term == k;
    }
  }
}
