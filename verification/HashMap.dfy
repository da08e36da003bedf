/**
 The bucketed hash map (src/util/map.c). A bucket that was never allocated is an empty list.
 */
module HashMaps {
  import opened Options

  datatype Entry<K, V> = Entry(key: K, val: V)

  ghost predicate HasKey<K, V>(bucket: seq<Entry<K, V>>, key: K) {
    exists e :: e in bucket && e.key == key
  }

  function Lookup<K, V>(m: map<K, V>, key: K): Option<V> {
    if key in m then Some(m[key]) else None
  }

  class HashMap<K(==), V> {
    const hash: K -> nat
    const buckets: array<seq<Entry<K, V>>>
    var size: nat
    ghost var contents: map<K, V>
    ghost var removed: nat  // how many entries map_remove has taken out

    function Slot(key: K): (i: nat)
      requires buckets.Length > 0
      ensures i < buckets.Length
    {
      hash(key) % buckets.Length
    }

    /** The bucket holds each entry of the contents that belongs in the slot, once, and nothing else. */
    ghost predicate Represents(bucket: seq<Entry<K, V>>, slot: nat, m: map<K, V>)
      requires buckets.Length > 0
    {
      && (forall e :: e in bucket ==> Slot(e.key) == slot && e.key in m && m[e.key] == e.val)
      && (forall k :: k in m && Slot(k) == slot ==> HasKey(bucket, k))
      && (forall i, j :: 0 <= i < j < |bucket| ==> bucket[i].key != bucket[j].key)
    }

    ghost predicate Valid()
      reads this, buckets
    {
      && buckets.Length > 0
      && (forall i :: 0 <= i < buckets.Length ==> Represents(buckets[i], i, contents))
      && size == |contents| + removed
    }

    constructor (nBuckets: nat, hash: K -> nat)
      requires nBuckets > 0
      ensures Valid() && contents == map[] && size == removed == 0
      ensures fresh(buckets) && this.hash == hash && buckets.Length == nBuckets
    {
      this.hash := hash;
      buckets := new seq<Entry<K, V>>[nBuckets](_ => []);
      size, contents, removed := 0, map[], 0;
    }

    /** map_get_entry: the bucket of the key and the position of its entry, or the length of the bucket. */
    method GetEntry(key: K) returns (bi: nat, ei: nat)
      requires Valid()
      ensures bi == Slot(key) && ei <= |buckets[bi]|
      ensures ei < |buckets[bi]| ==> buckets[bi][ei].key == key
      ensures ei < |buckets[bi]| <==> key in contents
    {
      bi := hash(key) % buckets.Length;
      var bucket := buckets[bi];
      ei := 0;
      while ei < |bucket| && bucket[ei].key != key
        invariant ei <= |bucket|
        invariant forall j :: 0 <= j < ei ==> bucket[j].key != key
      {
        ei := ei + 1;
      }
      assert Represents(bucket, bi, contents);
      if ei < |bucket| {
        assert bucket[ei] in bucket;
      }
    }

    method Get(key: K) returns (val: Option<V>)
      requires Valid()
      ensures val == Lookup(contents, key)
    {
      var bi, ei := GetEntry(key);
      if ei == |buckets[bi]| {
        return None;
      }
      assert Represents(buckets[bi], bi, contents) && buckets[bi][ei] in buckets[bi];
      val := Some(buckets[bi][ei].val);
    }

    /** map_set: replaces the entry of an equal key and returns its value, or adds an entry. */
    method Set(key: K, val: V) returns (previous: Option<V>)
      requires Valid()
      modifies this, buckets
      ensures Valid()
      ensures contents == old(contents)[key := val]
      ensures previous == Lookup(old(contents), key)
      ensures size == (if previous.None? then old(size) + 1 else old(size)) && removed == old(removed)
    {
      previous := Get(key);
      var bi, ei := GetEntry(key);
      var bucket := buckets[bi];
      assert Represents(bucket, bi, contents);
      ghost var next := contents[key := val];
      if ei < |bucket| {
        ReplacedRepresents(bucket, bi, contents, ei, val);
        buckets[bi] := bucket[ei := Entry(key, val)];
        assert next.Keys == contents.Keys;
      } else {
        AppendedRepresents(bucket, bi, contents, key, val);
        buckets[bi] := bucket + [Entry(key, val)];
        size := size + 1;
        assert next.Keys == contents.Keys + {key};
      }
      forall i | 0 <= i < buckets.Length && i != bi
        ensures Represents(buckets[i], i, next)
      {
        assert Represents(buckets[i], i, contents);
      }
      contents := next;
    }

    /** map_remove: takes the entry out but leaves the size as it was. */
    method Remove(key: K) returns (previous: Option<V>)
      requires Valid()
      modifies this, buckets
      ensures Valid()
      ensures contents == old(contents) - {key}
      ensures previous == Lookup(old(contents), key)
      ensures size == old(size)
      ensures removed == (if previous.Some? then old(removed) + 1 else old(removed))
    {
      previous := Get(key);
      var bi, ei := GetEntry(key);
      var bucket := buckets[bi];
      assert Represents(bucket, bi, contents);
      ghost var next := contents - {key};
      if ei == |bucket| {
        assert next == contents;
        return;
      }
      RemovedRepresents(bucket, bi, contents, ei);
      buckets[bi] := bucket[..ei] + bucket[ei + 1..];
      forall i | 0 <= i < buckets.Length && i != bi
        ensures Represents(buckets[i], i, next)
      {
        assert Represents(buckets[i], i, contents);
      }
      assert next.Keys == contents.Keys - {key};
      contents, removed := next, removed + 1;
    }

    lemma ReplacedRepresents(bucket: seq<Entry<K, V>>, slot: nat, m: map<K, V>, ei: nat, val: V)
      requires buckets.Length > 0 && Represents(bucket, slot, m) && ei < |bucket|
      ensures Represents(bucket[ei := Entry(bucket[ei].key, val)], slot, m[bucket[ei].key := val])
    {
      var key := bucket[ei].key;
      var after := bucket[ei := Entry(key, val)];
      forall k | k in m && Slot(k) == slot
        ensures HasKey(after, k)
      {
        var i :| 0 <= i < |bucket| && bucket[i].key == k;
        assert after[i].key == k;
      }
      forall e | e in after
        ensures e.key in m && Slot(e.key) == slot && m[key := val][e.key] == e.val
      {
        var i :| 0 <= i < |after| && after[i] == e;
        assert bucket[i] in bucket && bucket[ei] in bucket;
      }
    }

    lemma AppendedRepresents(bucket: seq<Entry<K, V>>, slot: nat, m: map<K, V>, key: K, val: V)
      requires buckets.Length > 0 && Represents(bucket, slot, m) && key !in m && Slot(key) == slot
      ensures Represents(bucket + [Entry(key, val)], slot, m[key := val])
    {
      var after := bucket + [Entry(key, val)];
      forall k | k in m[key := val] && Slot(k) == slot
        ensures HasKey(after, k)
      {
        if k == key {
          assert after[|bucket|].key == k;
        } else {
          var e :| e in bucket && e.key == k;
          assert e in after;
        }
      }
      assert forall i :: 0 <= i < |bucket| ==> bucket[i] in bucket && bucket[i].key != key;
    }

    lemma RemovedRepresents(bucket: seq<Entry<K, V>>, slot: nat, m: map<K, V>, ei: nat)
      requires buckets.Length > 0 && Represents(bucket, slot, m) && ei < |bucket|
      ensures Represents(bucket[..ei] + bucket[ei + 1..], slot, m - {bucket[ei].key})
    {
      var after := bucket[..ei] + bucket[ei + 1..];
      var key := bucket[ei].key;
      assert forall i :: 0 <= i < |after| ==> after[i] == bucket[if i < ei then i else i + 1];
      forall k | k in m && k != key && Slot(k) == slot
        ensures HasKey(after, k)
      {
        var i :| 0 <= i < |bucket| && bucket[i].key == k;
        assert after[if i < ei then i else i - 1].key == k;
      }
      forall i | 0 <= i < |after|
        ensures after[i] in bucket && after[i].key != key
      {
      }
    }
  }
}
