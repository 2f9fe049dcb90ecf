/**
 * The bounded least-recently-used map the partition serves from, a stand-in
 * for `lru::LruCache<String, String>`: entries are kept in recency order, most
 * recently used first (the order `LruCache::iter` yields them in).
 */
module Lru {
  import opened Wrappers

  datatype Entry = Entry(key: string, value: string)

  predicate DistinctKeys(entries: seq<Entry>) {
    forall i, j :: 0 <= i < j < |entries| ==> entries[i].key != entries[j].key
  }

  /** The cache invariant: one entry per key and never more entries than the capacity. */
  predicate Bounded(entries: seq<Entry>, capacity: nat) {
    DistinctKeys(entries) && |entries| <= capacity
  }

  /** The value cached under `key`, if any (`peek`: recency is not touched). */
  function Lookup(entries: seq<Entry>, key: string): (r: Option<string>)
    ensures r.None? <==> forall i :: 0 <= i < |entries| ==> entries[i].key != key
    ensures r.Some? ==> Entry(key, r.value) in entries
  {
    if entries == [] then None
    else if entries[0].key == key then Some(entries[0].value)
    else Lookup(entries[1..], key)
  }

  /** The entries without the one for `key` (`pop`). */
  function Removed(entries: seq<Entry>, key: string): (r: seq<Entry>)
    ensures forall x :: x in r ==> x in entries && x.key != key
    ensures forall k :: k != key ==> Lookup(r, k) == Lookup(entries, k)
    ensures DistinctKeys(entries) ==> DistinctKeys(r)
    ensures DistinctKeys(entries) ==>
      |r| == if Lookup(entries, key).Some? then |entries| - 1 else |entries|
  {
    if entries == [] then []
    else if entries[0].key == key then Removed(entries[1..], key)
    else [entries[0]] + Removed(entries[1..], key)
  }

  /** The order after a successful `get`: the entry moves to the most-recent end, contents are unchanged. */
  function Touched(entries: seq<Entry>, key: string): (r: seq<Entry>)
    ensures forall k :: Lookup(r, k) == Lookup(entries, k)
    ensures Lookup(entries, key).Some? ==> |r| > 0 && r[0].key == key
    ensures Lookup(entries, key).None? ==> r == entries
    ensures DistinctKeys(entries) ==> DistinctKeys(r) && |r| == |entries|
  {
    match Lookup(entries, key)
    case None => entries
    case Some(v) => [Entry(key, v)] + Removed(entries, key)
  }

  /**
   * `put`: the pair becomes the most recent entry, replacing an older value for
   * the key; a new key in a full cache pushes out the least recent entry.
   */
  function Inserted(entries: seq<Entry>, capacity: nat, key: string, value: string): (r: seq<Entry>)
    requires capacity >= 1
    ensures |r| > 0 && r[0] == Entry(key, value)
    ensures Lookup(r, key) == Some(value)
    ensures forall k :: k != key && Lookup(r, k).Some? ==> Lookup(r, k) == Lookup(entries, k)
    ensures Bounded(entries, capacity) ==> Bounded(r, capacity)
  {
    var rest := Removed(entries, key);
    var kept := if |rest| < capacity then rest else rest[..capacity - 1];
    KeptAfterPut(entries, capacity, key, kept);
    PutInFront(Entry(key, value), kept);
    [Entry(key, value)] + kept
  }

  /** The entries `put` keeps behind the new one: none for the key, and only what the old entries find. */
  lemma KeptAfterPut(entries: seq<Entry>, capacity: nat, key: string, kept: seq<Entry>)
    requires capacity >= 1
    requires var rest := Removed(entries, key);
      kept == if |rest| < capacity then rest else rest[..capacity - 1]
    ensures Lookup(kept, key).None?
    ensures forall k :: Lookup(kept, k).Some? ==> Lookup(kept, k) == Lookup(entries, k)
    ensures Bounded(entries, capacity) ==> DistinctKeys(kept) && |kept| < capacity
  {
    var rest := Removed(entries, key);
    PrefixLookup(rest, |kept|);
    assert kept == rest[..|kept|];
    forall i | 0 <= i < |kept| ensures kept[i].key != key {
      assert kept[i] in rest;
    }
  }

  /** An entry put in front of keys other than its own. */
  lemma PutInFront(e: Entry, kept: seq<Entry>)
    requires Lookup(kept, e.key).None?
    ensures Lookup([e] + kept, e.key) == Some(e.value)
    ensures forall k :: k != e.key ==> Lookup([e] + kept, k) == Lookup(kept, k)
    ensures DistinctKeys(kept) ==> DistinctKeys([e] + kept)
  {
    assert ([e] + kept)[1..] == kept;
  }

  /** What a prefix of the entries finds, the whole finds too. */
  lemma {:induction false} PrefixLookup(entries: seq<Entry>, n: nat)
    requires n <= |entries|
    ensures forall k :: Lookup(entries[..n], k).Some? ==> Lookup(entries[..n], k) == Lookup(entries, k)
    ensures DistinctKeys(entries) ==> DistinctKeys(entries[..n])
  {
    if n > 0 {
      PrefixLookup(entries[1..], n - 1);
      assert entries[..n][1..] == entries[1..][..n - 1];
    }
  }

  lemma {:induction false} RemovedAbsent(entries: seq<Entry>, key: string)
    requires Lookup(entries, key).None?
    ensures Removed(entries, key) == entries
  {
    if entries != [] {
      RemovedAbsent(entries[1..], key);
    }
  }

  /** Where the entry for `key` sits: its distance from the most recent end. */
  function KeyIndex(entries: seq<Entry>, key: string): (i: nat)
    requires Lookup(entries, key).Some?
    ensures i < |entries| && entries[i] == Entry(key, Lookup(entries, key).value)
    ensures forall j :: 0 <= j < i ==> entries[j].key != key
  {
    if entries[0].key == key then 0 else 1 + KeyIndex(entries[1..], key)
  }

  /** With one entry per key, `pop` cuts out exactly that entry and keeps the others in their order. */
  lemma {:induction false} RemovedKeepsOrder(entries: seq<Entry>, key: string)
    requires DistinctKeys(entries) && Lookup(entries, key).Some?
    ensures var i := KeyIndex(entries, key);
      Removed(entries, key) == entries[..i] + entries[i + 1..]
  {
    if entries[0].key == key {
      RemovedAbsent(entries[1..], key);
      assert entries[..0] + entries[1..] == entries[1..];
    } else {
      RemovedKeepsOrder(entries[1..], key);
      RemovedShift(entries, key, KeyIndex(entries[1..], key));
    }
  }

  lemma RemovedShift(entries: seq<Entry>, key: string, j: nat)
    requires entries != [] && entries[0].key != key && j < |entries| - 1
    requires Removed(entries[1..], key) == entries[1..][..j] + entries[1..][j + 1..]
    ensures Removed(entries, key) == entries[..j + 1] + entries[j + 2..]
  {
    assert entries[..j + 1] == [entries[0]] + entries[1..][..j];
    assert entries[j + 2..] == entries[1..][j + 1..];
  }

  /** A successful `get` moves the entry to the front and leaves the others in their order. */
  lemma TouchedOrder(entries: seq<Entry>, key: string)
    requires DistinctKeys(entries) && Lookup(entries, key).Some?
    ensures var i := KeyIndex(entries, key);
      Touched(entries, key) == [entries[i]] + entries[..i] + entries[i + 1..]
  {
    RemovedKeepsOrder(entries, key);
  }

  /** While there is room (or the key is already cached), `put` loses nothing. */
  lemma InsertedKeepsOthers(entries: seq<Entry>, capacity: nat, key: string, value: string)
    requires capacity >= 1 && Bounded(entries, capacity)
    requires Lookup(entries, key).Some? || |entries| < capacity
    ensures forall k :: k != key ==> Lookup(Inserted(entries, capacity, key, value), k) == Lookup(entries, k)
  {
    var rest := Removed(entries, key);
    assert |rest| < capacity;
  }

  /** A new key in a full cache evicts exactly the least recently used entry. */
  lemma InsertedEvictsLeastRecent(entries: seq<Entry>, capacity: nat, key: string, value: string)
    requires capacity >= 1 && Bounded(entries, capacity)
    requires Lookup(entries, key).None? && |entries| == capacity
    ensures Inserted(entries, capacity, key, value) == [Entry(key, value)] + entries[..capacity - 1]
    ensures Lookup(Inserted(entries, capacity, key, value), entries[capacity - 1].key).None?
  {
    RemovedAbsent(entries, key);
    var r := Inserted(entries, capacity, key, value);
    var lru := entries[capacity - 1];
    forall i | 0 <= i < |r|
      ensures r[i].key != lru.key
    {
      if i > 0 {
        assert r[i] == entries[i - 1];
      }
    }
  }

  /** A `get` protects its key: the next new key that fills the cache evicts some other entry. */
  lemma TouchedSurvivesNextInsert(entries: seq<Entry>, capacity: nat, key: string, other: string, value: string)
    requires capacity >= 2 && Bounded(entries, capacity)
    requires Lookup(entries, key).Some? && other != key
    ensures Lookup(Inserted(Touched(entries, key), capacity, other, value), key) == Lookup(entries, key)
  {
    var t := Touched(entries, key);
    var rest := Removed(t, other);
    assert t[0].key == key && t[0] in rest;
    assert rest[0] == t[0];
  }

  /** The LruCache object: its entries and its fixed capacity. */
  class LruCache {
    var entries: seq<Entry>
    const capacity: nat

    ghost predicate Valid()
      reads this
    {
      capacity >= 1 && Bounded(entries, capacity)
    }

    /** `LruCache::new`, whose capacity is a `NonZeroUsize`. */
    constructor (capacity: nat)
      requires capacity >= 1
      ensures Valid() && this.capacity == capacity && entries == []
    {
      this.capacity := capacity;
      entries := [];
    }

    method Get(key: string) returns (value: Option<string>)
      requires Valid()
      modifies this
      ensures Valid()
      ensures value == Lookup(old(entries), key)
      ensures entries == Touched(old(entries), key)
    {
      value := Lookup(entries, key);
      if value.Some? {
        entries := [Entry(key, value.value)] + Removed(entries, key);
      }
    }

    method Put(key: string, value: string)
      requires Valid()
      modifies this
      ensures Valid()
      ensures entries == Inserted(old(entries), capacity, key, value)
    {
      var rest := Removed(entries, key);
      if |rest| == capacity {
        rest := rest[..capacity - 1];
      }
      entries := [Entry(key, value)] + rest;
    }

    method Pop(key: string) returns (value: Option<string>)
      requires Valid()
      modifies this
      ensures Valid()
      ensures value == Lookup(old(entries), key)
      ensures entries == Removed(old(entries), key)
    {
      value := Lookup(entries, key);
      entries := Removed(entries, key);
    }
  }
}
