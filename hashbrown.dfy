/** HashBrown<Key, Value, Hash>: a separate-chaining hash map whose state is
    a vector of buckets, an item counter and a hasher, and whose iterator is
    a (bucket, position) pair bound to the map.

    The class follows the code as written, including its defects: the
    growth test fires when the load is low (and so never from the
    constructed one-bucket map), end() uses the item count as its position,
    ++ does not skip empty buckets and never lands on position 0, and erase
    must be given a stored key. */
module Hashbrown {
  import opened Table

  /** Iterator: the map it walks, a bucket index and a position within that
      bucket. operator== is the datatype's equality: same map, same bucket,
      same position. */
  datatype Cursor<K(==), V> = Cursor(hb: HashBrown<K, V>, bucket: nat, pos: nat)
  {
    /** The cursor names a stored pair, so operator* is defined on it. */
    predicate AtPair()
      reads hb
    {
      bucket < |hb.buckets| && pos < |hb.buckets[bucket]|
    }

    /** operator*: the pair at the cursor, always one the map stores. */
    function Deref(): (p: (K, V))
      reads hb
      requires AtPair()
      ensures p in Flatten(hb.buckets)
    {
      FlattenMember(hb.buckets, hb.buckets[bucket][pos]);
      hb.buckets[bucket][pos]
    }

    /** Prefix operator++ as written: at the end of a bucket it moves to the
        next bucket and then still steps the position, so it lands on
        position 1 there; it never skips an empty bucket. */
    function Next(): (c: Cursor<K, V>)
      reads hb
      requires bucket < |hb.buckets|
      ensures c.hb == hb
      ensures c.bucket == bucket || c.bucket == bucket + 1
      ensures c.pos > 0
    {
      if pos == |hb.buckets[bucket]| then Cursor(hb, bucket + 1, 1)
      else Cursor(hb, bucket, pos + 1)
    }
  }

  class HashBrown<K(==), V> {
    var buckets: seq<Bucket<K, V>>
    var items: nat
    const hasher: K -> nat

    /** The map's invariant: a well-formed table and a counter equal to the
        sum of the bucket lengths. */
    ghost predicate Valid()
      reads this
    {
      WellFormed(buckets, hasher) && items == Size(buckets)
    }

    /** One empty bucket, no items. */
    constructor (hasher: K -> nat)
      ensures Valid()
      ensures this.hasher == hasher && buckets == [[]] && items == 0
      ensures Keys(buckets) == {}
      ensures Begin() == End() && Empty()
    {
      this.hasher := hasher;
      buckets := [[]];
      items := 0;
      new;
      assert WellFormed(buckets, hasher);
      assert buckets[1..] == [];
      assert Flatten(buckets) == [] && Size(buckets) == 0;
      assert KeysOf(Flatten(buckets)) == {};
    }

    /** get: the value paired with the key, if the key is stored. */
    function Get(key: K): (r: Option<V>)
      reads this
      requires Valid()
      ensures r.Some? <==> key in Keys(buckets)
      ensures r.Some? ==> (key, r.value) in Flatten(buckets)
    {
      LookupSpec(buckets, hasher, key);
      Lookup(buckets, hasher, key)
    }

    /** begin(): position 0 of bucket 0, whether or not that bucket holds a
        pair. */
    function Begin(): (c: Cursor<K, V>)
      reads this
      ensures c.hb == this && c.bucket == 0 && c.pos == 0
      ensures c.AtPair() <==> |buckets| > 0 && buckets[0] != []
    {
      Cursor(this, 0, 0)
    }

    /** end(): the last bucket, at a position equal to the ITEM COUNT. It is
        never a stored pair, and it is one past the last bucket's pairs
        exactly when every other bucket is empty. */
    function End(): (c: Cursor<K, V>)
      reads this
      requires Valid()
      ensures c.hb == this && c.bucket == |buckets| - 1 && c.pos == items
      ensures !c.AtPair()
      ensures c.pos == |buckets[c.bucket]| <==> forall i :: 0 <= i < |buckets| - 1 ==> buckets[i] == []
    {
      SizeLast(buckets);
      SizeZero(buckets[..|buckets| - 1]);
      assert forall i :: 0 <= i < |buckets| - 1 ==> buckets[..|buckets| - 1][i] == buckets[i];
      Cursor(this, |buckets| - 1, items)
    }

    /** empty(): begin() == end(), which holds exactly for a map with one
        bucket and no items; a map with more buckets is never empty(). */
    function Empty(): (r: bool)
      reads this
      requires Valid()
      ensures r <==> |buckets| == 1 && items == 0
      ensures r ==> Keys(buckets) == {}
    {
      CountIsDistinctKeys(buckets, hasher);
      Begin() == End()
    }

    /** resize: a new table of 1 or twice as many buckets, filled by walking
        the old pairs in bucket-major order, then swapped in. */
    method Resize()
      modifies this`buckets
      ensures buckets == Rehashed(old(buckets), hasher)
      ensures |buckets| == if old(|buckets|) == 0 then 1 else 2 * old(|buckets|)
      ensures forall i :: 0 <= i < |buckets| ==> buckets[i] == Selected(Flatten(old(buckets)), hasher, |buckets|, i)
      ensures multiset(Flatten(buckets)) == multiset(Flatten(old(buckets)))
    {
      var target := if |buckets| == 0 then 1 else 2 * |buckets|;
      var all := Flatten(buckets);
      var newBuckets: seq<Bucket<K, V>> := seq(target, _ => []);
      for j := 0 to |all|
        invariant newBuckets == Distribute(all[..j], hasher, target)
      {
        assert all[..j + 1][..j] == all[..j];
        var key := all[j].0;
        var value := all[j].1;
        var b := Index(hasher, key, |newBuckets|);
        newBuckets := newBuckets[b := newBuckets[b] + [(key, value)]];
      }
      assert all[..|all|] == all;
      buckets := newBuckets;
    }

    /** insert(key, value): grow first if the growth test fires, then scan
        the key's bucket; a stored key gets the new value in place, a new
        key is appended to its bucket and counted. The cursor returned
        names the stored pair. */
    method Insert(key: K, value: V) returns (it: Cursor<K, V>)
      requires Valid()
      modifies this
      ensures Valid()
      ensures buckets == Upsert(old(buckets), hasher, key, value)
      ensures |buckets| == if NeedsResize(old(items), old(|buckets|)) then 2 * old(|buckets|) else old(|buckets|)
      ensures it.hb == this && it.bucket == Index(hasher, key, |buckets|)
      ensures it.AtPair() && it.Deref() == (key, value)
      ensures old(Get(key)).None? ==> it.pos == |buckets[it.bucket]| - 1
      ensures !NeedsResize(old(items), old(|buckets|)) && old(Get(key)).Some? ==>
        && Find(old(buckets)[it.bucket], key) == Some(it.pos)
        && buckets == old(buckets)[it.bucket := old(buckets)[it.bucket][it.pos := (key, value)]]
      ensures !NeedsResize(old(items), old(|buckets|)) && old(Get(key)).None? ==>
        buckets == old(buckets)[it.bucket := old(buckets)[it.bucket] + [(key, value)]]
      ensures old(|buckets|) == 1 ==> |buckets| == 1
      ensures Get(key) == Some(value)
      ensures forall k :: k != key ==> Get(k) == Lookup(old(buckets), hasher, k)
      ensures items == old(items) + (if old(Get(key)).Some? then 0 else 1)
      ensures Keys(buckets) == old(Keys(buckets)) + {key}
    {
      ghost var before := buckets;
      if NeedsResize(items, |buckets|) {
        Resize();
      }
      assert buckets == Prepared(before, hasher);
      assert Lookup(buckets, hasher, key) == Lookup(before, hasher, key) by {
        PreparedCorrect(before, hasher);
      }
      it := Store(key, value);
      assert buckets == Upsert(before, hasher, key, value);
      assert Valid() && Get(key) == Some(value) && Keys(buckets) == Keys(before) + {key} by {
        UpsertCorrect(before, hasher, key, value);
      }
      forall k | k != key
        ensures Get(k) == Lookup(before, hasher, k)
      {
        UpsertCorrect(before, hasher, key, value);
      }
    }

    /** The scan of the key's bucket inside insert: overwrite the value of
        a stored key in place, or append the pair and count it. */
    method Store(key: K, value: V) returns (it: Cursor<K, V>)
      requires |buckets| > 0
      modifies this
      ensures buckets == Place(old(buckets), hasher, key, value)
      ensures it == Cursor(this, Index(hasher, key, |buckets|), it.pos)
      ensures var b := old(buckets)[it.bucket];
        match Find(b, key)
        case Some(p) => it.pos == p && items == old(items)
        case None => it.pos == |b| && items == old(items) + 1
    {
      var i := Index(hasher, key, |buckets|);
      var bucket := buckets[i];
      var j := 0;
      while j < |bucket| && bucket[j].0 != key
        invariant 0 <= j <= |bucket|
        invariant forall q :: 0 <= q < j ==> bucket[q].0 != key
      {
        j := j + 1;
      }
      if j < |bucket| {
        assert Find(bucket, key) == Some(j);
        buckets := buckets[i := bucket[j := (key, value)]];
        it := Cursor(this, i, j);
      } else {
        assert Find(bucket, key) == None;
        items := items + 1;
        buckets := buckets[i := bucket + [(key, value)]];
        it := Cursor(this, i, |bucket|);
      }
    }

    /** insert(const value_type&), insert(value_type&&) and emplace: the
        pair's key and value handed to insert(key, value). */
    method InsertPair(pair: (K, V)) returns (it: Cursor<K, V>)
      requires Valid()
      modifies this
      ensures Valid()
      ensures buckets == Upsert(old(buckets), hasher, pair.0, pair.1)
      ensures |buckets| == if NeedsResize(old(items), old(|buckets|)) then 2 * old(|buckets|) else old(|buckets|)
      ensures it.hb == this && it.AtPair() && it.Deref() == pair
      ensures Get(pair.0) == Some(pair.1)
      ensures forall k :: k != pair.0 ==> Get(k) == Lookup(old(buckets), hasher, k)
      ensures Keys(buckets) == old(Keys(buckets)) + {pair.0}
    {
      it := Insert(pair.0, pair.1);
    }

    /** The range and initializer-list insert: one insert per pair, in
        input order, so a later duplicate key overwrites an earlier one. */
    method InsertAll(pairs: seq<(K, V)>)
      requires Valid()
      modifies this
      ensures Valid()
      ensures buckets == UpsertAll(old(buckets), hasher, pairs)
      ensures Keys(buckets) == old(Keys(buckets)) + KeysOf(pairs)
      ensures forall k :: Get(k) == if LastValue(pairs, k).Some? then LastValue(pairs, k) else Lookup(old(buckets), hasher, k)
      ensures old(|buckets|) == 1 ==> |buckets| == 1
    {
      for j := 0 to |pairs|
        invariant Valid()
        invariant buckets == UpsertAll(old(buckets), hasher, pairs[..j])
      {
        assert pairs[..j + 1][..j] == pairs[..j];
        var _ := InsertPair(pairs[j]);
      }
      assert pairs[..|pairs|] == pairs;
      UpsertAllKeys(old(buckets), hasher, pairs);
      forall k ensures Get(k) == if LastValue(pairs, k).Some? then LastValue(pairs, k) else Lookup(old(buckets), hasher, k) {
        UpsertAllLookup(old(buckets), hasher, pairs, k);
      }
      if old(|buckets|) == 1 {
        UpsertAllOneBucket(old(buckets), hasher, pairs);
      }
    }

    /** erase(key) of a stored key: the pair leaves its bucket, the pairs
        after it close up, the count drops by one. The cursor returned
        names the erased pair's position, now the pair that followed it. */
    method Erase(key: K) returns (it: Cursor<K, V>)
      requires Valid()
      requires key in Keys(buckets)
      modifies this
      ensures Valid()
      ensures |buckets| == old(|buckets|)
      ensures it.hb == this && it.bucket == Index(hasher, key, |buckets|)
      ensures Find(old(buckets)[it.bucket], key) == Some(it.pos)
      ensures buckets == Removed(old(buckets), hasher, key)
      ensures buckets[it.bucket] == old(buckets)[it.bucket][..it.pos] + old(buckets)[it.bucket][it.pos + 1..]
      ensures forall b :: 0 <= b < |buckets| && b != it.bucket ==> buckets[b] == old(buckets)[b]
      ensures Get(key) == None
      ensures forall k :: k != key ==> Get(k) == Lookup(old(buckets), hasher, k)
      ensures items == old(items) - 1
      ensures Keys(buckets) == old(Keys(buckets)) - {key}
    {
      ghost var before := buckets;
      assert Find(buckets[Index(hasher, key, |buckets|)], key).Some? && Size(Removed(before, hasher, key)) + 1 == Size(before) by {
        RemovedCorrect(before, hasher, key);
      }
      var i := Index(hasher, key, |buckets|);
      var bucket := buckets[i];
      var p := Find(bucket, key).value;
      items := items - 1;
      buckets := buckets[i := bucket[..p] + bucket[p + 1..]];
      it := Cursor(this, i, p);
      assert Valid() && Get(key) == None && Keys(buckets) == Keys(before) - {key} by {
        RemovedCorrect(before, hasher, key);
      }
      forall k | k != key
        ensures Get(k) == Lookup(before, hasher, k)
      {
        RemovedCorrect(before, hasher, key);
      }
    }
  }

  /** n applications of ++. Past the last bucket the code's ++ reads
      _buckets[_bucket] out of range, which is undefined behaviour; Walk
      chooses to stop there and return the cursor unchanged. */
  ghost function Walk<K, V>(c: Cursor<K, V>, n: nat): (r: Cursor<K, V>)
    reads c.hb
    ensures r.hb == c.hb
    decreases n
  {
    if n == 0 || c.bucket >= |c.hb.buckets| then c else Walk(c.Next(), n - 1)
  }

  lemma {:induction false} WalkOneBucket<K, V>(m: HashBrown<K, V>, s: nat, n: nat)
    requires |m.buckets| == 1 && s + n <= |m.buckets[0]|
    ensures Walk(Cursor(m, 0, s), n) == Cursor(m, 0, s + n)
    decreases n
  {
    if n > 0 {
      WalkOneBucket(m, s + 1, n - 1);
    }
  }

  /** In a map with one bucket (every map reachable from the constructor),
      the n-th step of ++ from begin() is the n-th stored pair, and end()
      is reached after exactly as many steps as there are items. */
  lemma IterationOneBucket<K, V>(m: HashBrown<K, V>, n: nat)
    requires m.Valid() && |m.buckets| == 1 && n <= m.items
    ensures Walk(m.Begin(), n) == Cursor(m, 0, n)
    ensures n < m.items ==> Walk(m.Begin(), n).AtPair() && Walk(m.Begin(), n).Deref() == Flatten(m.buckets)[n]
    ensures Walk(m.Begin(), n) == m.End() <==> n == m.items
  {
    assert Size(m.buckets) == |m.buckets[0]|;
    assert Flatten(m.buckets) == m.buckets[0];
    WalkOneBucket(m, 0, n);
  }

  lemma {:induction false} WalkAvoidsBucketHeads<K, V>(c: Cursor<K, V>, n: nat)
    requires c.bucket > 0 ==> c.pos > 0
    ensures Walk(c, n).bucket > 0 ==> Walk(c, n).pos > 0
    decreases n
  {
    if n > 0 && c.bucket < |c.hb.buckets| {
      WalkAvoidsBucketHeads(c.Next(), n - 1);
    }
  }

  /** ++ from begin() never reaches position 0 of any bucket after the
      first, so in a map with more than one bucket the first pair of every
      later bucket is skipped by iteration. */
  lemma BucketHeadsUnreached<K, V>(m: HashBrown<K, V>, i: nat, n: nat)
    requires 0 < i
    ensures Walk(m.Begin(), n) != Cursor(m, i, 0)
  {
    WalkAvoidsBucketHeads(m.Begin(), n);
  }

  /** ++ from a position beyond a bucket's pairs never leaves that bucket:
      at position 1 of an empty bucket (where ++ lands on entering it) the
      position grows without bound, no pair is ever reached, and, below the
      last bucket, end() is never reached either. */
  lemma {:induction false} EmptyBucketTraps<K, V>(m: HashBrown<K, V>, i: nat, s: nat, n: nat)
    requires i < |m.buckets| && s > |m.buckets[i]|
    ensures Walk(Cursor(m, i, s), n) == Cursor(m, i, s + n)
    ensures !Walk(Cursor(m, i, s), n).AtPair()
    ensures m.Valid() && i < |m.buckets| - 1 ==> Walk(Cursor(m, i, s), n) != m.End()
    decreases n
  {
    if n > 0 {
      EmptyBucketTraps(m, i, s + 1, n - 1);
    }
  }

  /** Below the last bucket, ++ from a position s within a bucket's pairs
      walks to the position just past them, which is neither a stored pair
      nor end(): a range-for loop dereferences it, reading one past the
      bucket's pairs. The next ++ enters the following bucket at position 1. */
  lemma {:induction false} OverrunsBucketEnd<K, V>(m: HashBrown<K, V>, i: nat, s: nat)
    requires m.Valid() && i < |m.buckets| - 1 && s <= |m.buckets[i]|
    ensures Walk(Cursor(m, i, s), |m.buckets[i]| - s) == Cursor(m, i, |m.buckets[i]|)
    ensures !Cursor(m, i, |m.buckets[i]|).AtPair() && Cursor(m, i, |m.buckets[i]|) != m.End()
    ensures Walk(Cursor(m, i, s), |m.buckets[i]| - s + 1) == Cursor(m, i + 1, 1)
    decreases |m.buckets[i]| - s
  {
    if s < |m.buckets[i]| {
      OverrunsBucketEnd(m, i, s + 1);
    }
  }

  /** The range-for loop over the map (begin, !=, *, prefix ++ up to end)
      on a map with one bucket: it visits every stored pair exactly once,
      in bucket order. */
  method Traverse<K(==), V>(m: HashBrown<K, V>) returns (visited: seq<(K, V)>)
    requires m.Valid() && |m.buckets| == 1
    ensures visited == Flatten(m.buckets)
    ensures |visited| == m.items
  {
    assert Size(m.buckets) == |m.buckets[0]|;
    var it := m.Begin();
    var stop := m.End();
    visited := [];
    while it != stop
      invariant |visited| <= m.items
      invariant it == Cursor(m, 0, |visited|)
      invariant visited == m.buckets[0][..|visited|]
      decreases m.items - |visited|
    {
      visited := visited + [it.Deref()];
      it := it.Next();
    }
    assert Flatten(m.buckets) == m.buckets[0];
  }

  /** An arbitrary hasher for the scenarios below; none of them depends on
      the hash values. */
  function Magnitude(k: int): nat
  {
    if k < 0 then -k else k
  }

  /** A constructed map: begin() == end(), empty(), nothing to get. */
  method ScenarioEmptyByDefault() returns (same: bool, empty: bool, value: Option<int>)
    ensures same && empty && value == None
  {
    var m := new HashBrown<int, int>(Magnitude);
    same := m.Begin() == m.End();
    empty := m.Empty();
    value := m.Get(1);
  }

  /** Insert 1 -> 42, then 1 -> 66: get(1) reads 42, then 66; one item. */
  method ScenarioInsertOverwrites() returns (first: Option<int>, second: Option<int>, count: nat)
    ensures first == Some(42) && second == Some(66) && count == 1
  {
    var m := new HashBrown<int, int>(Magnitude);
    var _ := m.Insert(1, 42);
    first := m.Get(1);
    var _ := m.Insert(1, 66);
    second := m.Get(1);
    count := m.items;
  }

  /** Insert 1 -> 42, erase 1: get(1) finds nothing and the map is empty. */
  method ScenarioEraseRemoves() returns (value: Option<int>, empty: bool)
    ensures value == None && empty
  {
    var m := new HashBrown<int, int>(Magnitude);
    var _ := m.Insert(1, 42);
    var _ := m.Erase(1);
    value := m.Get(1);
    empty := m.Empty();
  }

  /** The driver's first inserts, (3, "three") and (4, "four"), into a
      constructed map: two keys, one bucket. */
  method DriverInserts(h: int -> nat) returns (m: HashBrown<int, string>)
    ensures fresh(m)
    ensures m.Valid() && |m.buckets| == 1
    ensures Keys(m.buckets) == {3, 4}
  {
    m := new HashBrown<int, string>(h);
    var _ := m.InsertPair((3, "three"));
    assert Keys(m.buckets) == {3};
    var _ := m.InsertPair((4, "four"));
  }

  /** The driver's list insert, (4, "another four") then (5, "five"): the
      later 4 wins, 5 joins, and the map keeps its one bucket. */
  method DriverListInsert(m: HashBrown<int, string>)
    requires m.Valid() && |m.buckets| == 1 && Keys(m.buckets) == {3, 4}
    modifies m
    ensures m.Valid() && |m.buckets| == 1
    ensures Keys(m.buckets) == {3, 4, 5}
    ensures m.Get(4) == Some("another four")
  {
    var list := [(4, "another four"), (5, "five")];
    assert KeysOf(list) == {4, 5} by {
      assert list[0] in list && list[1] in list;
    }
    assert LastValue(list, 4) == Some("another four") by {
      assert list[..1] == [(4, "another four")];
    }
    m.InsertAll(list);
  }

  /** The driver's range-for loop after its inserts visits three pairs. */
  method ScenarioDriver() returns (visited: seq<(int, string)>)
    ensures |visited| == 3
    ensures KeysOf(visited) == {3, 4, 5}
    ensures (4, "another four") in visited && (4, "four") !in visited
  {
    var m := DriverInserts(Magnitude);
    DriverListInsert(m);
    CountIsDistinctKeys(m.buckets, m.hasher);
    visited := Traverse(m);
    LookupIff(m.buckets, m.hasher, 4, "four");
    LookupIff(m.buckets, m.hasher, 4, "another four");
  }
}
