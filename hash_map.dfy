/**
 * A map kept in a hash table with separate chaining: an array of buckets,
 * each a list of key/value nodes, where a key lives in the bucket its hash
 * code selects. The table doubles when the load factor exceeds its maximum.
 */
module HashMaps {
  import opened Wrappers

  /** A key/value pair in a bucket. */
  datatype Node<K, V> = Node(key: K, value: V)

  /** The value of the first node for `key` in `bucket`, as the bucket scans find it; `None` when there is none. */
  function Find<K(==), V>(bucket: seq<Node<K, V>>, key: K): (r: Option<V>)
    ensures r == None <==> forall i :: 0 <= i < |bucket| ==> bucket[i].key != key
    ensures r.Some? ==> exists i :: 0 <= i < |bucket| && bucket[i] == Node(key, r.value)
    decreases |bucket|
  {
    if bucket == [] then None
    else if bucket[0].key == key then Some(bucket[0].value)
    else Find(bucket[1..], key)
  }

  /** No two nodes of `bucket` share a key. */
  ghost predicate DistinctKeys<K, V>(bucket: seq<Node<K, V>>)
  {
    forall i, j :: 0 <= i < j < |bucket| ==> bucket[i].key != bucket[j].key
  }

  /** The keys of the nodes of `bucket`. */
  ghost function KeysOf<K, V>(bucket: seq<Node<K, V>>): set<K>
  {
    set i | 0 <= i < |bucket| :: bucket[i].key
  }

  /** Taking one more node of a bucket adds its key. */
  lemma KeysOfPrefix<K, V>(bucket: seq<Node<K, V>>, i: int)
    requires 0 <= i < |bucket|
    ensures KeysOf(bucket[..i + 1]) == KeysOf(bucket[..i]) + {bucket[i].key}
  {
    assert bucket[..i + 1] == bucket[..i] + [bucket[i]];
  }

  /** In a bucket without repeated keys, a node's key is not among the keys before it. */
  lemma NotEarlier<K, V>(bucket: seq<Node<K, V>>, i: int)
    requires DistinctKeys(bucket) && 0 <= i < |bucket|
    ensures bucket[i].key !in KeysOf(bucket[..i])
  {
  }

  /** A key the scan finds is a key of the bucket. */
  lemma FoundIsKey<K, V>(bucket: seq<Node<K, V>>, key: K)
    requires Find(bucket, key).Some?
    ensures key in KeysOf(bucket)
  {
    var j :| 0 <= j < |bucket| && bucket[j] == Node(key, Find(bucket, key).value);
  }

  /** In a bucket without repeated keys, the scan for a node's key finds that node. */
  lemma FindDistinct<K, V>(bucket: seq<Node<K, V>>, i: int)
    requires DistinctKeys(bucket) && 0 <= i < |bucket|
    ensures Find(bucket, bucket[i].key) == Some(bucket[i].value)
  {
    var r := Find(bucket, bucket[i].key);
    var j :| 0 <= j < |bucket| && bucket[j] == Node(bucket[i].key, r.value);
    assert i == j;
  }

  /** A node added at the end of a bucket is found only when no earlier node has its key. */
  lemma {:induction false} FindAppend<K, V>(bucket: seq<Node<K, V>>, node: Node<K, V>, key: K)
    ensures Find(bucket + [node], key) ==
              if Find(bucket, key).Some? then Find(bucket, key) else if node.key == key then Some(node.value) else None
    decreases |bucket|
  {
    if bucket != [] {
      assert (bucket + [node])[1..] == bucket[1..] + [node];
      FindAppend(bucket[1..], node, key);
    }
  }

  /** Replacing the `i`-th node by one with the same key changes only what the scan for that key finds. */
  lemma {:induction false} FindReplace<K, V>(bucket: seq<Node<K, V>>, i: int, node: Node<K, V>, key: K)
    requires 0 <= i < |bucket| && node.key == bucket[i].key
    requires forall j :: 0 <= j < i ==> bucket[j].key != node.key
    ensures Find(bucket[..i] + [node] + bucket[i + 1..], key) == if key == node.key then Some(node.value) else Find(bucket, key)
    decreases i
  {
    if i > 0 {
      assert (bucket[..i] + [node] + bucket[i + 1..])[1..] == bucket[1..][..i - 1] + [node] + bucket[1..][i..];
      FindReplace(bucket[1..], i - 1, node, key);
    }
  }

  /** Deleting the `i`-th node of a bucket without repeated keys leaves every other key's scan as it was. */
  lemma {:induction false} FindDelete<K, V>(bucket: seq<Node<K, V>>, i: int, key: K)
    requires 0 <= i < |bucket| && DistinctKeys(bucket)
    ensures Find(bucket[..i] + bucket[i + 1..], key) == if key == bucket[i].key then None else Find(bucket, key)
    decreases i
  {
    if i == 0 {
      assert bucket[..i] + bucket[i + 1..] == bucket[1..];
    } else {
      assert (bucket[..i] + bucket[i + 1..])[1..] == bucket[1..][..i - 1] + bucket[1..][i..];
      FindDelete(bucket[1..], i - 1, key);
    }
  }

  /** `size / length > num / den`, with the Java `double` ratio taken as the exact fraction `num / den`. */
  predicate Exceeds(size: int, length: int, num: nat, den: nat)
    requires length > 0 && den > 0
  {
    size * den > num * length
  }

  /** The integer comparison is the comparison of the two ratios. */
  lemma ExceedsIsRatio(size: int, length: int, num: nat, den: nat)
    requires length > 0 && den > 0
    ensures Exceeds(size, length, num, den) <==> (size as real) / (length as real) > (num as real) / (den as real)
  {
    var l, d := length as real, den as real;
    var x, y := (size as real) / l, (num as real) / d;
    assert x * l == size as real && y * d == num as real;
    assert (size * den) as real == x * l * d;
    assert (num * length) as real == y * d * l;
    if x > y {
      assert x * (l * d) > y * (l * d);
    } else {
      assert x * (l * d) <= y * (l * d);
    }
  }

  class MyHashMap<K(==, !new), V(==)> {
    var buckets: array<seq<Node<K, V>>>
    var size: int
    /** The maximum load factor, `maxLoadNum / maxLoadDen`. */
    const maxLoadNum: nat
    const maxLoadDen: nat
    /** `key.hashCode()`. */
    const hash: K -> int
    /** The mappings. */
    ghost var Contents: map<K, V>
    /** The mappings removed since the table was last set up; `size` still counts them. */
    ghost var removals: nat

    /** `hashIndex`: `Math.floorMod(hash, length)`, a bucket of the table. */
    function HashIndex(key: K, length: int): (index: int)
      requires length > 0
      ensures 0 <= index < length
    {
      hash(key) % length
    }

    /** The bucket index is the hash code's remainder modulo the length, taken non-negative as `floorMod` does. */
    lemma HashIndexIsFloorMod(key: K, length: int)
      requires length > 0
      ensures exists q :: hash(key) == q * length + HashIndex(key, length)
    {
      assert hash(key) == (hash(key) / length) * length + HashIndex(key, length);
    }

    /** Every node sits in its key's bucket, no bucket repeats a key, and the scan of a key's bucket finds its mapping. */
    ghost predicate Organized(table: seq<seq<Node<K, V>>>, contents: map<K, V>)
    {
      && |table| > 0
      && (forall b, i :: 0 <= b < |table| && 0 <= i < |table[b]| ==> HashIndex(table[b][i].key, |table|) == b)
      && (forall b :: 0 <= b < |table| ==> DistinctKeys(table[b]))
      && (forall k :: Find(table[HashIndex(k, |table|)], k) == Lookup(contents, k))
    }

    /** A table whose buckets are all empty holds no mappings. */
    lemma EmptyOrganized(table: seq<seq<Node<K, V>>>)
      requires |table| > 0 && forall b :: 0 <= b < |table| ==> table[b] == []
      ensures Organized(table, map[])
    {
    }

    /** Exchanging one bucket for another that is organized for its index and the new mappings keeps the table organized. */
    lemma ReplaceBucket(table: seq<seq<Node<K, V>>>, contents: map<K, V>, index: int, bucket: seq<Node<K, V>>, contents': map<K, V>)
      requires Organized(table, contents) && 0 <= index < |table|
      requires forall i :: 0 <= i < |bucket| ==> HashIndex(bucket[i].key, |table|) == index
      requires DistinctKeys(bucket)
      requires forall k :: HashIndex(k, |table|) == index ==> Find(bucket, k) == Lookup(contents', k)
      requires forall k :: HashIndex(k, |table|) != index ==> Lookup(contents', k) == Lookup(contents, k)
      ensures Organized(table[index := bucket], contents')
    {
      var t := table[index := bucket];
      forall k
        ensures Find(t[HashIndex(k, |t|)], k) == Lookup(contents', k)
      {
        if HashIndex(k, |t|) != index {
          assert t[HashIndex(k, |t|)] == table[HashIndex(k, |table|)];
        }
      }
    }

    /** A node for a new key appended to its bucket: the table gains exactly that mapping. */
    lemma AppendToBucket(table: seq<seq<Node<K, V>>>, contents: map<K, V>, node: Node<K, V>)
      requires Organized(table, contents) && node.key !in contents
      ensures Organized(table[HashIndex(node.key, |table|) := table[HashIndex(node.key, |table|)] + [node]],
                        contents[node.key := node.value])
    {
      var index := HashIndex(node.key, |table|);
      var bucket := table[index] + [node];
      assert Find(table[index], node.key) == None;
      forall k | HashIndex(k, |table|) == index
        ensures Find(bucket, k) == Lookup(contents[node.key := node.value], k)
      {
        FindAppend(table[index], node, k);
      }
      ReplaceBucket(table, contents, index, bucket, contents[node.key := node.value]);
    }

    /** The `i`-th node of bucket `index` exchanged for one with the same key: only that key's value changes. */
    lemma ReplaceInBucket(table: seq<seq<Node<K, V>>>, contents: map<K, V>, index: int, i: int, node: Node<K, V>)
      requires Organized(table, contents) && 0 <= index < |table| && 0 <= i < |table[index]|
      requires node.key == table[index][i].key
      ensures Organized(table[index := table[index][..i] + [node] + table[index][i + 1..]], contents[node.key := node.value])
    {
      var old_ := table[index];
      var bucket := old_[..i] + [node] + old_[i + 1..];
      forall j | 0 <= j < |bucket|
        ensures bucket[j].key == old_[j].key
      {
        if j != i {
          assert bucket[j] == old_[j];
        }
      }
      assert DistinctKeys(old_);
      assert DistinctKeys(bucket);
      assert forall j :: 0 <= j < i ==> old_[j].key != node.key;
      forall k | HashIndex(k, |table|) == index
        ensures Find(bucket, k) == Lookup(contents[node.key := node.value], k)
      {
        FindReplace(old_, i, node, k);
      }
      ReplaceBucket(table, contents, index, bucket, contents[node.key := node.value]);
    }

    /** The `i`-th node of bucket `index` taken out: the table loses exactly that key's mapping. */
    lemma DeleteFromBucket(table: seq<seq<Node<K, V>>>, contents: map<K, V>, index: int, i: int)
      requires Organized(table, contents) && 0 <= index < |table| && 0 <= i < |table[index]|
      ensures Organized(table[index := table[index][..i] + table[index][i + 1..]], contents - {table[index][i].key})
    {
      var old_ := table[index];
      var bucket := old_[..i] + old_[i + 1..];
      assert forall j :: 0 <= j < |bucket| ==> bucket[j] == if j < i then old_[j] else old_[j + 1];
      forall k | HashIndex(k, |table|) == index
        ensures Find(bucket, k) == Lookup(contents - {old_[i].key}, k)
      {
        FindDelete(old_, i, k);
      }
      ReplaceBucket(table, contents, index, bucket, contents - {old_[i].key});
    }

    ghost predicate Valid()
      reads this, buckets
    {
      && Organized(buckets[..], Contents)
      && maxLoadDen > 0
      && size == |Contents| + removals
    }

    /** `MyHashMap()`: 16 buckets and a maximum load factor of 0.75. */
    constructor (hashCode: K -> int)
      ensures Valid() && fresh(buckets)
      ensures Contents == map[] && size == 0 && removals == 0
      ensures buckets.Length == 16 && maxLoadNum == 3 && maxLoadDen == 4 && hash == hashCode
    {
      hash := hashCode;
      maxLoadNum, maxLoadDen := 3, 4;
      size := 0;
      Contents, removals := map[], 0;
      new;
      SetUp(16);
    }

    /** `MyHashMap(initialSize)`: a maximum load factor of 0.75. */
    constructor WithSize(hashCode: K -> int, initialSize: int)
      requires initialSize > 0
      ensures Valid() && fresh(buckets)
      ensures Contents == map[] && size == 0 && removals == 0
      ensures buckets.Length == initialSize && maxLoadNum == 3 && maxLoadDen == 4 && hash == hashCode
    {
      hash := hashCode;
      maxLoadNum, maxLoadDen := 3, 4;
      size := 0;
      Contents, removals := map[], 0;
      new;
      SetUp(initialSize);
    }

    /** `MyHashMap(initialSize, maxLoad)` with `maxLoad = num / den`. */
    constructor WithLoad(hashCode: K -> int, initialSize: int, num: nat, den: nat)
      requires initialSize > 0 && den > 0
      ensures Valid() && fresh(buckets)
      ensures Contents == map[] && size == 0 && removals == 0
      ensures buckets.Length == initialSize && maxLoadNum == num && maxLoadDen == den && hash == hashCode
    {
      hash := hashCode;
      maxLoadNum, maxLoadDen := num, den;
      size := 0;
      Contents, removals := map[], 0;
      new;
      SetUp(initialSize);
    }

    /** `setUp`: a fresh table of `initialSize` empty buckets. */
    method SetUp(initialSize: int)
      requires initialSize > 0
      modifies this
      ensures fresh(buckets) && buckets.Length == initialSize
      ensures Organized(buckets[..], map[])
      ensures size == old(size) && Contents == old(Contents) && removals == old(removals)
    {
      buckets := CreateTable(initialSize);
      EmptyOrganized(buckets[..]);
    }

    /** `createTable` followed by `createBucket` in every slot. */
    static method CreateTable(tableSize: int) returns (table: array<seq<Node<K, V>>>)
      requires tableSize >= 0
      ensures fresh(table) && table.Length == tableSize
      ensures forall b :: 0 <= b < tableSize ==> table[b] == []
    {
      table := new seq<Node<K, V>>[tableSize];
      for i := 0 to tableSize
        invariant forall b :: 0 <= b < i ==> table[b] == []
      {
        table[i] := [];
      }
    }

    /** `exceedsMaxLoadFactor`: the items per bucket are above the maximum load factor. */
    function ExceedsMaxLoadFactor(): (r: bool)
      reads this, buckets
      requires Valid()
      ensures r <==> (size as real) / (buckets.Length as real) > (maxLoadNum as real) / (maxLoadDen as real)
    {
      ExceedsIsRatio(size, buckets.Length, maxLoadNum, maxLoadDen);
      Exceeds(size, buckets.Length, maxLoadNum, maxLoadDen)
    }

    /** `resizedTable`: a fresh table of `tableSize` buckets holding the same mappings, each node in its bucket for the new length. */
    method ResizedTable(tableSize: int) returns (temp: array<seq<Node<K, V>>>)
      requires Valid() && tableSize > 0
      ensures fresh(temp) && temp.Length == tableSize
      ensures Organized(temp[..], Contents)
    {
      temp := CreateTable(tableSize);
      ghost var moved: map<K, V> := map[];
      EmptyOrganized(temp[..]);
      for b := 0 to buckets.Length
        invariant Organized(temp[..], moved)
        invariant forall k :: k in moved <==> k in Contents && HashIndex(k, buckets.Length) < b
        invariant forall k :: k in moved ==> moved[k] == Contents[k]
      {
        moved := Rehash(temp, b, moved);
      }
      assert moved == Contents;
    }

    /** The inner loop of `resizedTable`: the nodes of bucket `b` added to their buckets in `temp`. */
    method Rehash(temp: array<seq<Node<K, V>>>, b: int, ghost moved: map<K, V>) returns (ghost moved': map<K, V>)
      requires Valid() && temp != buckets && 0 <= b < buckets.Length
      requires Organized(temp[..], moved)
      requires forall k :: k in moved <==> k in Contents && HashIndex(k, buckets.Length) < b
      requires forall k :: k in moved ==> moved[k] == Contents[k]
      modifies temp
      ensures Organized(temp[..], moved')
      ensures forall k :: k in moved' <==> k in Contents && HashIndex(k, buckets.Length) <= b
      ensures forall k :: k in moved' ==> moved'[k] == Contents[k]
    {
      moved' := moved;
      var bucket := buckets[b];
      for i := 0 to |bucket|
        invariant Organized(temp[..], moved')
        invariant forall k :: k in moved' <==>
                    k in Contents && (HashIndex(k, buckets.Length) < b || k in KeysOf(bucket[..i]))
        invariant forall k :: k in moved' ==> moved'[k] == Contents[k]
      {
        var node := bucket[i];
        NotEarlier(bucket, i);
        var index := HashIndex(node.key, temp.Length);
        AppendToBucket(temp[..], moved', node);
        temp[index] := temp[index] + [node];
        moved' := moved'[node.key := node.value];
        KeysOfPrefix(bucket, i);
        FindDistinct(bucket, i);
      }
      forall k | k in Contents && HashIndex(k, buckets.Length) == b
        ensures k in KeysOf(bucket)
      {
        FoundIsKey(bucket, k);
      }
      assert bucket[..|bucket|] == bucket;
    }

    /** `clear`: no mappings and a size of 0, over as many (fresh, empty) buckets as before. */
    method Clear()
      requires Valid()
      modifies this
      ensures Valid() && fresh(buckets) && buckets.Length == old(buckets.Length)
      ensures Contents == map[] && size == 0 && removals == 0
    {
      size := 0;
      Contents, removals := map[], 0;
      SetUp(buckets.Length);
    }

    /** `containsKey`: scans the key's bucket for a node with the key. */
    method ContainsKey(key: K) returns (found: bool)
      requires Valid()
      ensures found <==> key in Contents
    {
      var bucket := buckets[HashIndex(key, buckets.Length)];
      for i := 0 to |bucket|
        invariant forall j :: 0 <= j < i ==> bucket[j].key != key
      {
        if bucket[i].key == key {
          return true;
        }
      }
      return false;
    }

    /** `get`: the key's value, or `None` (Java's null) when the key has no mapping. */
    method Get(key: K) returns (value: Option<V>)
      requires Valid()
      ensures value == if key in Contents then Some(Contents[key]) else None
    {
      var bucket := buckets[HashIndex(key, buckets.Length)];
      for i := 0 to |bucket|
        invariant forall j :: 0 <= j < i ==> bucket[j].key != key
      {
        if bucket[i].key == key {
          FindDistinct(bucket, i);
          return Some(bucket[i].value);
        }
      }
      return None;
    }

    /** `size`: counts every mapping put since the table was set up, including removed ones. */
    function Size(): (n: int)
      reads this, buckets
      requires Valid()
      ensures n == |Contents| + removals
    {
      size
    }

    /**
     * `put`: an existing key's value is replaced, with size and table
     * unchanged; a new key's node is appended to its bucket, the size grows by
     * one, and the table then doubles if the load factor exceeds its maximum.
     */
    method Put(key: K, value: V)
      requires Valid()
      modifies this, buckets
      ensures Valid() && removals == old(removals)
      ensures Contents == old(Contents)[key := value]
      ensures size == if key in old(Contents) then old(size) else old(size) + 1
      ensures key in old(Contents) ==> buckets == old(buckets)
      ensures key !in old(Contents) ==>
                if Exceeds(old(size) + 1, old(buckets.Length), maxLoadNum, maxLoadDen)
                then fresh(buckets) && buckets.Length == 2 * old(buckets.Length)
                else buckets == old(buckets)
    {
      var index := HashIndex(key, buckets.Length);
      var bucket := buckets[index];
      for i := 0 to |bucket|
        invariant forall j :: 0 <= j < i ==> bucket[j].key != key
      {
        if bucket[i].key == key {
          ghost var table := buckets[..];
          ReplaceInBucket(table, Contents, index, i, Node(key, value));
          buckets[index] := bucket[..i] + [Node(key, value)] + bucket[i + 1..];
          assert buckets[..] == table[index := bucket[..i] + [Node(key, value)] + bucket[i + 1..]];
          Contents := Contents[key := value];
          assert Valid();
          return;
        }
      }
      assert Find(bucket, key) == None;
      ghost var table := buckets[..];
      AppendToBucket(table, Contents, Node(key, value));
      buckets[index] := bucket + [Node(key, value)];
      assert buckets[..] == table[index := bucket + [Node(key, value)]];
      size := size + 1;
      Contents := Contents[key := value];
      assert Valid();
      if ExceedsMaxLoadFactor() {
        buckets := ResizedTable(2 * buckets.Length);
      }
    }

    /** `keySet`: the keys of all nodes, bucket by bucket. */
    method KeySet() returns (keys: set<K>)
      requires Valid()
      ensures keys == Contents.Keys
    {
      keys := {};
      for b := 0 to buckets.Length
        invariant keys <= Contents.Keys
        invariant forall k :: k in Contents && HashIndex(k, buckets.Length) < b ==> k in keys
      {
        var bucket := buckets[b];
        for i := 0 to |bucket|
          invariant keys <= Contents.Keys
          invariant forall k :: k in Contents && HashIndex(k, buckets.Length) < b ==> k in keys
          invariant forall j :: 0 <= j < i ==> bucket[j].key in keys
        {
          assert Find(bucket, bucket[i].key).Some?;
          keys := keys + {bucket[i].key};
        }
        forall k | k in Contents && HashIndex(k, buckets.Length) == b
          ensures k in keys
        {
          var j :| 0 <= j < |bucket| && bucket[j] == Node(k, Contents[k]);
        }
      }
    }

    /** Takes the `i`-th node out of bucket `index`; the size is left as it is. */
    method Unlink(index: int, i: int)
      requires Valid() && 0 <= index < buckets.Length && 0 <= i < |buckets[index]|
      modifies this, buckets
      ensures Valid() && buckets == old(buckets) && size == old(size)
      ensures Contents == old(Contents) - {old(buckets[index][i]).key}
      ensures removals == old(removals) + 1
    {
      var bucket := buckets[index];
      DeleteFromBucket(buckets[..], Contents, index, i);
      buckets[index] := bucket[..i] + bucket[i + 1..];
      Contents := Contents - {bucket[i].key};
      removals := removals + 1;
    }

    /**
     * `remove(key)` as written: the key's node leaves its bucket and its value
     * is returned (`None` when the key has no mapping), but the size is not
     * decremented.
     */
    method Remove(key: K) returns (value: Option<V>)
      requires Valid()
      modifies this, buckets
      ensures Valid() && buckets == old(buckets) && size == old(size)
      ensures value == if key in old(Contents) then Some(old(Contents)[key]) else None
      ensures Contents == old(Contents) - {key}
      ensures removals == if key in old(Contents) then old(removals) + 1 else old(removals)
    {
      var index := HashIndex(key, buckets.Length);
      var bucket := buckets[index];
      for i := 0 to |bucket|
        invariant forall j :: 0 <= j < i ==> bucket[j].key != key
      {
        if bucket[i].key == key {
          FindDistinct(bucket, i);
          value := Some(bucket[i].value);
          Unlink(index, i);
          return;
        }
      }
      assert Contents - {key} == Contents;
      return None;
    }

    /**
     * `remove(key, value)` as written: the node leaves its bucket only when
     * the key is mapped to exactly `value`, which is then returned; the size
     * is not decremented.
     */
    method RemoveEntry(key: K, value: V) returns (removed: Option<V>)
      requires Valid()
      modifies this, buckets
      ensures Valid() && buckets == old(buckets) && size == old(size)
      ensures removed == if key in old(Contents) && old(Contents)[key] == value then Some(value) else None
      ensures Contents == if removed.Some? then old(Contents) - {key} else old(Contents)
      ensures removals == if removed.Some? then old(removals) + 1 else old(removals)
    {
      var index := HashIndex(key, buckets.Length);
      var bucket := buckets[index];
      for i := 0 to |bucket|
        invariant forall j :: 0 <= j < i ==> bucket[j].key != key || bucket[j].value != value
      {
        if bucket[i].key == key && bucket[i].value == value {
          FindDistinct(bucket, i);
          removed := Some(value);
          Unlink(index, i);
          return;
        }
      }
      if key in Contents {
        var j :| 0 <= j < |bucket| && bucket[j] == Node(key, Contents[key]);
      }
      return None;
    }

    /** `iterator`: a fresh iterator, which in the source is a stub. */
    method Iterator() returns (it: HashMapIterator<K>)
      ensures fresh(it)
    {
      it := new HashMapIterator();
    }

    /** `remove(key)` that also decrements the size, so that `size` keeps counting the mappings. */
    method RemoveCorrected(key: K) returns (value: Option<V>)
      requires Valid()
      modifies this, buckets
      ensures Valid() && buckets == old(buckets) && removals == old(removals)
      ensures value == if key in old(Contents) then Some(old(Contents)[key]) else None
      ensures Contents == old(Contents) - {key}
      ensures size == |Contents| + removals
    {
      value := Remove(key);
      if value.Some? {
        size := size - 1;
        removals := removals - 1;
      }
    }

    /** `remove(key, value)` that also decrements the size. */
    method RemoveEntryCorrected(key: K, value: V) returns (removed: Option<V>)
      requires Valid()
      modifies this, buckets
      ensures Valid() && buckets == old(buckets) && removals == old(removals)
      ensures removed == if key in old(Contents) && old(Contents)[key] == value then Some(value) else None
      ensures Contents == if removed.Some? then old(Contents) - {key} else old(Contents)
      ensures size == |Contents| + removals
    {
      removed := RemoveEntry(key, value);
      if removed.Some? {
        size := size - 1;
        removals := removals - 1;
      }
    }
  }

  /** The source's iterator over the keys: a stub with no next key. */
  class HashMapIterator<K> {
    constructor ()
    {
    }

    /** `hasNext`: never a next key. */
    predicate HasNext(): (r: bool)
      ensures !r
    {
      false
    }

    /** `next`: null. */
    function Next(): (k: Option<K>)
      ensures k == None
    {
      None
    }
  }

  /** One key put and removed: `size` still reports 1 while the key is gone. */
  method RemoveKeepsSize(hashCode: int -> int) returns (before: int, after: int, present: bool)
    ensures before == 1 && after == 1 && !present
  {
    var m := new MyHashMap<int, string>(hashCode);
    m.Put(1, "one");
    before := m.Size();
    var _ := m.Remove(1);
    after := m.Size();
    present := m.ContainsKey(1);
  }

  /** The same calls with the corrected `remove`: the size drops back to 0. */
  method RemoveCorrectedShrinksSize(hashCode: int -> int) returns (before: int, after: int, present: bool)
    ensures before == 1 && after == 0 && !present
  {
    var m := new MyHashMap<int, string>(hashCode);
    m.Put(1, "one");
    before := m.Size();
    var _ := m.RemoveCorrected(1);
    after := m.Size();
    present := m.ContainsKey(1);
  }

  /** Putting an existing key again replaces its value and keeps the size. */
  method PutReplaces(hashCode: int -> int) returns (value: Option<string>, count: int)
    ensures value == Some("uno") && count == 1
  {
    var m := new MyHashMap<int, string>(hashCode);
    m.Put(1, "one");
    m.Put(1, "uno");
    value := m.Get(1);
    count := m.Size();
  }
}
