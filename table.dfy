/** The bucket table behind HashBrown, as values.

    A table is a sequence of buckets; a bucket is the ordered chain of
    (key, value) pairs whose keys share one index. Everything the container
    does to its table (index computation, lookup, the growth test, rehashing,
    upsert, erase) is written here as a function of the old table, and the
    lemmas below say what each of them preserves. The class in module
    Hashbrown is proved against these functions. */
module Table {

  datatype Option<T> = None | Some(value: T)

  /** One slot of the table: the pairs whose keys hash to this index. */
  type Bucket<K, V> = seq<(K, V)>

  /** get_bucket_index: the hash reduced modulo the number of buckets. */
  function Index<K>(h: K -> nat, k: K, n: nat): (i: nat)
    requires n > 0
    ensures i < n
  {
    h(k) % n
  }

  /** The growth test at the head of insert, as written: it fires on a
      table without buckets or when the item count is BELOW three quarters
      of the bucket count (integer division). */
  predicate NeedsResize(items: nat, n: nat)
    ensures n == 1 ==> !NeedsResize(items, n)
    ensures n == 0 ==> NeedsResize(items, n)
  {
    n == 0 || items < 3 * n / 4
  }

  /** All pairs in bucket-major order (the joined view resize walks over). */
  function Flatten<K, V>(bs: seq<Bucket<K, V>>): seq<(K, V)>
  {
    if bs == [] then [] else bs[0] + Flatten(bs[1..])
  }

  /** Sum of the bucket lengths: what the item counter must equal. */
  function Size<K, V>(bs: seq<Bucket<K, V>>): nat
  {
    if bs == [] then 0 else |bs[0]| + Size(bs[1..])
  }

  ghost function KeysOf<K, V>(ps: seq<(K, V)>): set<K>
  {
    set x | x in ps :: x.0
  }

  /** The keys stored anywhere in the table. */
  ghost function Keys<K, V>(bs: seq<Bucket<K, V>>): set<K>
  {
    KeysOf(Flatten(bs))
  }

  ghost predicate DistinctKeys<K, V>(ps: seq<(K, V)>)
  {
    forall a, b :: 0 <= a < b < |ps| ==> ps[a].0 != ps[b].0
  }

  /** Every pair sits in the bucket its key hashes to for the current size. */
  ghost predicate Placed<K, V>(bs: seq<Bucket<K, V>>, h: K -> nat)
  {
    forall i, p :: 0 <= i < |bs| && 0 <= p < |bs[i]| ==> Index(h, bs[i][p].0, |bs|) == i
  }

  /** The table invariant: at least one bucket, every pair in its own
      bucket, no key twice within a bucket (and so, by placement, no key
      twice anywhere; see WellFormedDistinct). */
  ghost predicate WellFormed<K, V>(bs: seq<Bucket<K, V>>, h: K -> nat)
  {
    && |bs| > 0
    && Placed(bs, h)
    && forall i :: 0 <= i < |bs| ==> DistinctKeys(bs[i])
  }

  /** The linear scan of a bucket (std::ranges::find_if on the key): the
      position of the first pair whose key equals k, if there is one. */
  function Find<K(==), V>(b: Bucket<K, V>, k: K): (r: Option<nat>)
    ensures r.Some? ==> r.value < |b| && b[r.value].0 == k
    ensures r.Some? ==> forall q :: 0 <= q < r.value ==> b[q].0 != k
    ensures r.None? ==> forall q :: 0 <= q < |b| ==> b[q].0 != k
  {
    if b == [] then None
    else if b[0].0 == k then Some(0)
    else match Find(b[1..], k)
      case Some(p) => Some(p + 1)
      case None => None
  }

  /** get: scan the bucket the key hashes to and yield the paired value. */
  function Lookup<K(==), V>(bs: seq<Bucket<K, V>>, h: K -> nat, k: K): (r: Option<V>)
    requires |bs| > 0
    ensures r.Some? ==> (k, r.value) in bs[Index(h, k, |bs|)]
    ensures r.None? ==> forall q :: 0 <= q < |bs[Index(h, k, |bs|)]| ==> bs[Index(h, k, |bs|)][q].0 != k
  {
    var b := bs[Index(h, k, |bs|)];
    match Find(b, k)
    case Some(p) => Some(b[p].1)
    case None => None
  }

  /** The pairs ps appended, in order, to the bucket each key hashes to in a
      table of n initially empty buckets: the loop at the end of resize. */
  function Distribute<K, V>(ps: seq<(K, V)>, h: K -> nat, n: nat): (bs: seq<Bucket<K, V>>)
    requires n > 0
    ensures |bs| == n
    decreases |ps|
  {
    if ps == [] then seq(n, _ => [])
    else
      var bs := Distribute(ps[..|ps| - 1], h, n);
      var p := ps[|ps| - 1];
      var i := Index(h, p.0, n);
      bs[i := bs[i] + [p]]
  }

  /** The pairs of ps whose key hashes to bucket i of n, in their order in
      ps: what bucket i of a re-placed table should hold. */
  function Selected<K, V>(ps: seq<(K, V)>, h: K -> nat, n: nat, i: nat): (s: Bucket<K, V>)
    requires n > 0
    ensures |s| <= |ps|
    ensures forall p :: p in s ==> p in ps && Index(h, p.0, n) == i
    decreases |ps|
  {
    if ps == [] then []
    else (if Index(h, ps[0].0, n) == i then [ps[0]] else []) + Selected(ps[1..], h, n, i)
  }

  /** resize: one bucket if there were none, else twice as many, with every
      pair re-placed by its hash for the new size in old bucket-major order. */
  function Rehashed<K, V>(bs: seq<Bucket<K, V>>, h: K -> nat): (r: seq<Bucket<K, V>>)
    ensures |r| == if |bs| == 0 then 1 else 2 * |bs|
    ensures |r| >= |bs|
    ensures Placed(r, h)
    ensures multiset(Flatten(r)) == multiset(Flatten(bs))
    ensures Size(r) == Size(bs)
    ensures forall i :: 0 <= i < |r| ==> r[i] == Selected(Flatten(bs), h, |r|, i)
  {
    var n := if |bs| == 0 then 1 else 2 * |bs|;
    DistributeSelected(Flatten(bs), h, n);
    DistributePlaced(Flatten(bs), h, n);
    DistributePairs(Flatten(bs), h, n);
    FlattenSize(bs);
    Distribute(Flatten(bs), h, n)
  }

  /** The table insert works on: rehashed first when the growth test fires. */
  function Prepared<K, V>(bs: seq<Bucket<K, V>>, h: K -> nat): (r: seq<Bucket<K, V>>)
    ensures |r| > 0
  {
    if NeedsResize(Size(bs), |bs|) then Rehashed(bs, h) else bs
  }

  /** The scan-and-store step of insert: overwrite the value of the pair
      with key k in place, or append (k, v) to the end of its bucket. */
  function Place<K(==), V>(bs: seq<Bucket<K, V>>, h: K -> nat, k: K, v: V): (r: seq<Bucket<K, V>>)
    requires |bs| > 0
    ensures |r| == |bs|
    ensures (k, v) in r[Index(h, k, |r|)]
  {
    var i := Index(h, k, |bs|);
    match Find(bs[i], k)
    case Some(p) =>
      var b := bs[i][p := (k, v)];
      assert b[p] == (k, v);
      bs[i := b]
    case None => bs[i := bs[i] + [(k, v)]]
  }

  /** insert(key, value) on a table. */
  function Upsert<K(==), V>(bs: seq<Bucket<K, V>>, h: K -> nat, k: K, v: V): (r: seq<Bucket<K, V>>)
    ensures |r| > 0
  {
    Place(Prepared(bs, h), h, k, v)
  }

  /** Range insert: the single inserts in input order. */
  function UpsertAll<K(==), V>(bs: seq<Bucket<K, V>>, h: K -> nat, ps: seq<(K, V)>): (r: seq<Bucket<K, V>>)
    ensures ps == [] ==> r == bs
    ensures ps != [] ==> |r| > 0
    decreases |ps|
  {
    if ps == [] then bs
    else
      var p := ps[|ps| - 1];
      Upsert(UpsertAll(bs, h, ps[..|ps| - 1]), h, p.0, p.1)
  }

  /** The value the last pair with key k in ps carries, if any. */
  function LastValue<K(==), V>(ps: seq<(K, V)>, k: K): (r: Option<V>)
    ensures r.Some? ==> (k, r.value) in ps
    ensures r.None? <==> k !in KeysOf(ps)
    ensures r.Some? ==> exists j :: 0 <= j < |ps| && ps[j] == (k, r.value) && forall j' :: j < j' < |ps| ==> ps[j'].0 != k
    decreases |ps|
  {
    if ps == [] then None
    else if ps[|ps| - 1].0 == k then Some(ps[|ps| - 1].1)
    else LastValue(ps[..|ps| - 1], k)
  }

  /** erase(key) on a table where key is stored: the pair leaves its bucket,
      the pairs after it close up. */
  function Removed<K(==), V>(bs: seq<Bucket<K, V>>, h: K -> nat, k: K): (r: seq<Bucket<K, V>>)
    requires |bs| > 0 && Find(bs[Index(h, k, |bs|)], k).Some?
    ensures |r| == |bs|
  {
    var i := Index(h, k, |bs|);
    var p := Find(bs[i], k).value;
    bs[i := bs[i][..p] + bs[i][p + 1..]]
  }

  // ---------------------------------------------------------------------
  // Facts about Flatten and Size

  lemma {:induction false} FlattenSize<K, V>(bs: seq<Bucket<K, V>>)
    ensures |Flatten(bs)| == Size(bs)
  {
    if bs != [] {
      FlattenSize(bs[1..]);
    }
  }

  /** A pair is in the joined view exactly when some bucket holds it. */
  lemma {:induction false} FlattenMember<K, V>(bs: seq<Bucket<K, V>>, x: (K, V))
    ensures x in Flatten(bs) <==> exists i, p :: 0 <= i < |bs| && 0 <= p < |bs[i]| && bs[i][p] == x
  {
    if bs != [] {
      FlattenMember(bs[1..], x);
      if x in Flatten(bs) {
        if x in bs[0] {
          var p :| 0 <= p < |bs[0]| && bs[0][p] == x;
          assert bs[0][p] == x;
        } else {
          var i, p :| 0 <= i < |bs[1..]| && 0 <= p < |bs[1..][i]| && bs[1..][i][p] == x;
          assert bs[i + 1][p] == x;
        }
      }
      if exists i, p :: 0 <= i < |bs| && 0 <= p < |bs[i]| && bs[i][p] == x {
        var i, p :| 0 <= i < |bs| && 0 <= p < |bs[i]| && bs[i][p] == x;
        if i == 0 {
          assert x in bs[0];
        } else {
          assert bs[1..][i - 1][p] == x;
        }
      }
    }
  }

  /** Replacing one bucket replaces its pairs in the joined view and its
      length in the size, and nothing else. */
  lemma {:induction false} FlattenUpdate<K, V>(bs: seq<Bucket<K, V>>, i: nat, b: Bucket<K, V>)
    requires i < |bs|
    ensures multiset(Flatten(bs[i := b])) + multiset(bs[i]) == multiset(Flatten(bs)) + multiset(b)
    ensures Size(bs[i := b]) + |bs[i]| == Size(bs) + |b|
  {
    var bs' := bs[i := b];
    assert Flatten(bs') == bs'[0] + Flatten(bs'[1..]);
    assert Flatten(bs) == bs[0] + Flatten(bs[1..]);
    if i == 0 {
      assert bs'[1..] == bs[1..];
    } else {
      FlattenUpdate(bs[1..], i - 1, b);
      assert bs[1..][i - 1] == bs[i];
      assert bs'[1..] == bs[1..][i - 1 := b];
      assert bs'[0] == bs[0];
      calc {
        multiset(Flatten(bs')) + multiset(bs[i]);
        multiset(bs[0]) + (multiset(Flatten(bs'[1..])) + multiset(bs[i]));
        multiset(bs[0]) + (multiset(Flatten(bs[1..])) + multiset(b));
        multiset(Flatten(bs)) + multiset(b);
      }
    }
  }

  lemma Cancel<T>(a: multiset<T>, b: multiset<T>, c: multiset<T>)
    requires a + c == b + c
    ensures a == b
  {
    forall x ensures a[x] == b[x] {
      assert (a + c)[x] == (b + c)[x];
    }
  }

  lemma {:induction false} FlattenAllEmpty<K, V>(bs: seq<Bucket<K, V>>)
    requires forall i :: 0 <= i < |bs| ==> bs[i] == []
    ensures Flatten(bs) == [] && Size(bs) == 0
  {
    if bs != [] {
      FlattenAllEmpty(bs[1..]);
    }
  }

  /** The size is the pairs of the buckets before the last plus the last's. */
  lemma {:induction false} SizeLast<K, V>(bs: seq<Bucket<K, V>>)
    requires |bs| > 0
    ensures Size(bs) == Size(bs[..|bs| - 1]) + |bs[|bs| - 1]|
  {
    if |bs| > 1 {
      SizeLast(bs[1..]);
      assert bs[..|bs| - 1][1..] == bs[1..][..|bs| - 2];
    }
  }

  /** A table holds no pair exactly when every bucket is empty. */
  lemma {:induction false} SizeZero<K, V>(bs: seq<Bucket<K, V>>)
    ensures Size(bs) == 0 <==> forall i :: 0 <= i < |bs| ==> bs[i] == []
  {
    if bs != [] {
      SizeZero(bs[1..]);
      if Size(bs) == 0 {
        forall i | 0 <= i < |bs| ensures bs[i] == [] {
          if i > 0 {
            assert bs[i] == bs[1..][i - 1];
          }
        }
      }
      if forall i :: 0 <= i < |bs| ==> bs[i] == [] {
        assert bs[0] == [];
        forall i | 0 <= i < |bs[1..]| ensures bs[1..][i] == [] {
          assert bs[1..][i] == bs[i + 1];
        }
      }
    }
  }

  // ---------------------------------------------------------------------
  // Distinct keys

  lemma DistinctConcat<K, V>(a: seq<(K, V)>, b: seq<(K, V)>)
    requires DistinctKeys(a) && DistinctKeys(b)
    requires forall x, y :: x in a && y in b ==> x.0 != y.0
    ensures DistinctKeys(a + b)
  {
    forall i, j | 0 <= i < j < |a + b| ensures (a + b)[i].0 != (a + b)[j].0 {
      if j < |a| {
        assert (a + b)[i] == a[i] && (a + b)[j] == a[j];
      } else if i >= |a| {
        assert (a + b)[i] == b[i - |a|] && (a + b)[j] == b[j - |a|];
      } else {
        assert (a + b)[i] == a[i] && (a + b)[j] == b[j - |a|];
        assert a[i] in a && b[j - |a|] in b;
      }
    }
  }

  lemma DistinctSnoc<K, V>(b: seq<(K, V)>, p: (K, V))
    requires DistinctKeys(b)
    requires forall q :: 0 <= q < |b| ==> b[q].0 != p.0
    ensures DistinctKeys(b + [p])
  {
    forall i, j | 0 <= i < j < |b + [p]| ensures (b + [p])[i].0 != (b + [p])[j].0 {
      assert (b + [p])[i] == b[i];
      if j < |b| {
        assert (b + [p])[j] == b[j];
      }
    }
  }

  lemma {:induction false} SuffixDistinct<K, V>(bs: seq<Bucket<K, V>>, h: K -> nat, s: nat)
    requires WellFormed(bs, h) && s <= |bs|
    ensures DistinctKeys(Flatten(bs[s..]))
    decreases |bs| - s
  {
    if s == |bs| {
      assert bs[s..] == [];
    } else {
      SuffixDistinct(bs, h, s + 1);
      var rest := bs[s + 1..];
      assert bs[s..][1..] == rest;
      assert Flatten(bs[s..]) == bs[s] + Flatten(rest);
      forall x, y | x in bs[s] && y in Flatten(rest) ensures x.0 != y.0 {
        FlattenMember(rest, y);
        var j, q :| 0 <= j < |rest| && 0 <= q < |rest[j]| && rest[j][q] == y;
        assert bs[s + 1 + j][q] == y;
        var qx :| 0 <= qx < |bs[s]| && bs[s][qx] == x;
        assert Index(h, x.0, |bs|) == s;
        assert Index(h, y.0, |bs|) == s + 1 + j;
      }
      assert DistinctKeys(bs[s]);
      DistinctConcat(bs[s], Flatten(rest));
    }
  }

  /** With every pair in its own bucket and no key twice in a bucket, no key
      occurs twice in the whole table. */
  lemma WellFormedDistinct<K, V>(bs: seq<Bucket<K, V>>, h: K -> nat)
    requires WellFormed(bs, h)
    ensures DistinctKeys(Flatten(bs))
  {
    SuffixDistinct(bs, h, 0);
    assert bs[0..] == bs;
  }

  lemma {:induction false} KeysOfSnoc<K, V>(ps: seq<(K, V)>, p: (K, V))
    ensures KeysOf(ps + [p]) == KeysOf(ps) + {p.0}
  {
    forall k ensures k in KeysOf(ps + [p]) <==> k in KeysOf(ps) + {p.0} {
      if k in KeysOf(ps + [p]) {
        var x :| x in ps + [p] && x.0 == k;
        if x != p {
          assert x in ps;
        }
      }
      if k in KeysOf(ps) {
        var x :| x in ps && x.0 == k;
        assert x in ps + [p];
      }
      if k == p.0 {
        assert p in ps + [p];
      }
    }
  }

  /** KeysOfSnoc for a sequence split before its last pair. */
  lemma KeysOfLast<K, V>(ps: seq<(K, V)>)
    requires |ps| > 0
    ensures KeysOf(ps) == KeysOf(ps[..|ps| - 1]) + {ps[|ps| - 1].0}
  {
    assert ps == ps[..|ps| - 1] + [ps[|ps| - 1]];
    KeysOfSnoc(ps[..|ps| - 1], ps[|ps| - 1]);
  }

  lemma {:induction false} DistinctCard<K, V>(ps: seq<(K, V)>)
    requires DistinctKeys(ps)
    ensures |KeysOf(ps)| == |ps|
    decreases |ps|
  {
    if ps == [] {
      assert KeysOf(ps) == {};
    } else {
      var init := ps[..|ps| - 1];
      var p := ps[|ps| - 1];
      assert DistinctKeys(init) by {
        forall a, b | 0 <= a < b < |init| ensures init[a].0 != init[b].0 {
          assert init[a] == ps[a] && init[b] == ps[b];
        }
      }
      DistinctCard(init);
      KeysOfLast(ps);
      assert p.0 !in KeysOf(init) by {
        forall x | x in init ensures x.0 != p.0 {
          var a :| 0 <= a < |init| && init[a] == x;
          assert ps[a] == x;
        }
      }
    }
  }

  /** The item count of a well-formed table is its number of distinct keys. */
  lemma CountIsDistinctKeys<K, V>(bs: seq<Bucket<K, V>>, h: K -> nat)
    requires WellFormed(bs, h)
    ensures Size(bs) == |Keys(bs)|
  {
    WellFormedDistinct(bs, h);
    DistinctCard(Flatten(bs));
    FlattenSize(bs);
  }

  // ---------------------------------------------------------------------
  // Rehashing

  lemma {:induction false} DistributePlaced<K, V>(ps: seq<(K, V)>, h: K -> nat, n: nat)
    requires n > 0
    ensures Placed(Distribute(ps, h, n), h)
    decreases |ps|
  {
    if ps != [] {
      var init := ps[..|ps| - 1];
      var p := ps[|ps| - 1];
      DistributePlaced(init, h, n);
      var bs: seq<seq<(K, V)>> := Distribute(init, h, n);
      var i := Index(h, p.0, n);
      var r: seq<seq<(K, V)>> := bs[i := bs[i] + [p]];
      forall j: int, q: int | 0 <= j < |r| && 0 <= q < |r[j]| ensures Index(h, r[j][q].0, |r|) == j {
        if j == i && q == |bs[i]| {
          assert r[j][q] == p;
        } else {
          assert r[j][q] == bs[j][q];
        }
      }
    }
  }

  lemma {:induction false} SelectedSnoc<K, V>(ps: seq<(K, V)>, p: (K, V), h: K -> nat, n: nat, i: nat)
    requires n > 0
    ensures Selected(ps + [p], h, n, i) == Selected(ps, h, n, i) + (if Index(h, p.0, n) == i then [p] else [])
    decreases |ps|
  {
    var tail: Bucket<K, V> := if Index(h, p.0, n) == i then [p] else [];
    if ps == [] {
      assert ([] + [p])[1..] == [];
    } else {
      var q := ps + [p];
      var head: Bucket<K, V> := if Index(h, ps[0].0, n) == i then [ps[0]] else [];
      assert q[0] == ps[0];
      assert q[1..] == ps[1..] + [p];
      SelectedSnoc(ps[1..], p, h, n, i);
      assert Selected(q, h, n, i) == head + (Selected(ps[1..], h, n, i) + tail);
      assert Selected(ps, h, n, i) == head + Selected(ps[1..], h, n, i);
      assert head + (Selected(ps[1..], h, n, i) + tail) == (head + Selected(ps[1..], h, n, i)) + tail;
    }
  }

  /** Bucket i after the re-placing loop holds exactly the pairs that hash
      to i, in their order of visit. */
  lemma {:induction false} DistributeSelected<K, V>(ps: seq<(K, V)>, h: K -> nat, n: nat)
    requires n > 0
    ensures forall i :: 0 <= i < n ==> Distribute(ps, h, n)[i] == Selected(ps, h, n, i)
    decreases |ps|
  {
    if ps != [] {
      var init := ps[..|ps| - 1];
      var p := ps[|ps| - 1];
      assert init + [p] == ps;
      DistributeSelected(init, h, n);
      forall i | 0 <= i < n
        ensures Distribute(ps, h, n)[i] == Selected(ps, h, n, i)
      {
        SelectedSnoc(init, p, h, n, i);
      }
    }
  }

  /** Cancelling a bucket's old contents from both sides of the update
      equation leaves the new pair. */
  lemma AddOne<T>(mr: multiset<T>, mb: multiset<T>, mi: multiset<T>, p: T)
    requires mr + mb == mi + (mb + multiset{p})
    ensures mr == mi + multiset{p}
  {
    assert mr + mb == (mi + multiset{p}) + mb;
    Cancel(mr, mi + multiset{p}, mb);
  }

  lemma {:induction false} DistributePairs<K, V>(ps: seq<(K, V)>, h: K -> nat, n: nat)
    requires n > 0
    ensures multiset(Flatten(Distribute(ps, h, n))) == multiset(ps)
    ensures Size(Distribute(ps, h, n)) == |ps|
    decreases |ps|
  {
    if ps == [] {
      FlattenAllEmpty(Distribute(ps, h, n));
    } else {
      var init := ps[..|ps| - 1];
      var p := ps[|ps| - 1];
      var bs: seq<seq<(K, V)>> := Distribute(init, h, n);
      var i := Index(h, p.0, n);
      var b' := bs[i] + [p];
      var r := Distribute(ps, h, n);
      assert r == bs[i := b'];
      DistributePairs(init, h, n);
      FlattenUpdate(bs, i, b');
      assert multiset(b') == multiset(bs[i]) + multiset{p};
      assert multiset(ps) == multiset(init) + multiset{p} by {
        assert ps == init + [p];
      }
      AddOne(multiset(Flatten(r)), multiset(bs[i]), multiset(init), p);
    }
  }

  lemma {:induction false} DistributeDistinct<K, V>(ps: seq<(K, V)>, h: K -> nat, n: nat)
    requires n > 0 && DistinctKeys(ps)
    ensures forall i :: 0 <= i < n ==> DistinctKeys(Distribute(ps, h, n)[i])
    decreases |ps|
  {
    if ps != [] {
      var init := ps[..|ps| - 1];
      var p := ps[|ps| - 1];
      assert DistinctKeys(init) by {
        forall a, b | 0 <= a < b < |init| ensures init[a].0 != init[b].0 {
          assert init[a] == ps[a] && init[b] == ps[b];
        }
      }
      DistributeDistinct(init, h, n);
      DistributePairs(init, h, n);
      var bs: seq<seq<(K, V)>> := Distribute(init, h, n);
      var i := Index(h, p.0, n);
      forall q: int | 0 <= q < |bs[i]| ensures bs[i][q].0 != p.0 {
        var x := bs[i][q];
        FlattenMember(bs, x);
        assert x in multiset(init);
        var a :| 0 <= a < |init| && init[a] == x;
        assert ps[a] == x;
      }
      DistinctSnoc(bs[i], p);
    }
  }

  /** resize keeps the table invariant for the new size. */
  lemma RehashedWellFormed<K, V>(bs: seq<Bucket<K, V>>, h: K -> nat)
    requires WellFormed(bs, h)
    ensures WellFormed(Rehashed(bs, h), h)
  {
    var n := 2 * |bs|;
    WellFormedDistinct(bs, h);
    DistributeDistinct(Flatten(bs), h, n);
  }

  // ---------------------------------------------------------------------
  // Lookup

  /** get yields v for k exactly when the pair (k, v) is stored anywhere. */
  lemma LookupIff<K, V>(bs: seq<Bucket<K, V>>, h: K -> nat, k: K, v: V)
    requires WellFormed(bs, h)
    ensures Lookup(bs, h, k) == Some(v) <==> (k, v) in Flatten(bs)
  {
    var i := Index(h, k, |bs|);
    var b := bs[i];
    FlattenMember(bs, (k, v));
    if Lookup(bs, h, k) == Some(v) {
      var p := Find(b, k).value;
      assert bs[i][p] == (k, v);
    }
    if (k, v) in Flatten(bs) {
      var j, q :| 0 <= j < |bs| && 0 <= q < |bs[j]| && bs[j][q] == (k, v);
      assert j == i;
      assert Find(b, k).Some?;
      var p := Find(b, k).value;
      assert DistinctKeys(bs[i]);
      assert p == q;
    }
  }

  /** get finds a value exactly for the stored keys, and the value it finds
      is paired with the key in the table. */
  lemma LookupSpec<K, V>(bs: seq<Bucket<K, V>>, h: K -> nat, k: K)
    requires WellFormed(bs, h)
    ensures Lookup(bs, h, k).Some? <==> k in Keys(bs)
    ensures Lookup(bs, h, k).Some? ==> (k, Lookup(bs, h, k).value) in Flatten(bs)
  {
    if Lookup(bs, h, k).Some? {
      LookupIff(bs, h, k, Lookup(bs, h, k).value);
    }
    if k in Keys(bs) {
      var x :| x in Flatten(bs) && x.0 == k;
      LookupIff(bs, h, k, x.1);
    }
  }

  /** Two well-formed tables that hold the same pairs for k agree on get(k). */
  lemma LookupSame<K, V>(bs1: seq<Bucket<K, V>>, bs2: seq<Bucket<K, V>>, h: K -> nat, k: K)
    requires WellFormed(bs1, h) && WellFormed(bs2, h)
    requires forall x: (K, V) :: x.0 == k ==> (x in multiset(Flatten(bs1)) <==> x in multiset(Flatten(bs2)))
    ensures Lookup(bs1, h, k) == Lookup(bs2, h, k)
  {
    if Lookup(bs1, h, k).Some? {
      var v := Lookup(bs1, h, k).value;
      LookupIff(bs1, h, k, v);
      LookupIff(bs2, h, k, v);
    } else if Lookup(bs2, h, k).Some? {
      var v := Lookup(bs2, h, k).value;
      LookupIff(bs1, h, k, v);
      LookupIff(bs2, h, k, v);
    }
  }

  /** The key sets of two well-formed tables, read through get. */
  lemma KeysByLookup<K, V>(bs: seq<Bucket<K, V>>, h: K -> nat, ks: set<K>)
    requires WellFormed(bs, h)
    requires forall k :: Lookup(bs, h, k).Some? <==> k in ks
    ensures Keys(bs) == ks
  {
    forall k | k in Keys(bs) ensures k in ks {
      LookupSpec(bs, h, k);
    }
    forall k | k in ks ensures k in Keys(bs) {
      LookupSpec(bs, h, k);
    }
  }

  // ---------------------------------------------------------------------
  // insert

  /** Growth keeps the invariant, the pairs, the count and every lookup. */
  lemma PreparedCorrect<K, V>(bs: seq<Bucket<K, V>>, h: K -> nat)
    requires WellFormed(bs, h)
    ensures var r := Prepared(bs, h);
      && WellFormed(r, h)
      && multiset(Flatten(r)) == multiset(Flatten(bs))
      && Size(r) == Size(bs)
      && (forall k :: Lookup(r, h, k) == Lookup(bs, h, k))
  {
    var r := Prepared(bs, h);
    if NeedsResize(Size(bs), |bs|) {
      RehashedWellFormed(bs, h);
      forall k ensures Lookup(r, h, k) == Lookup(bs, h, k) {
        LookupSame(r, bs, h, k);
      }
    }
  }

  /** Replacing one bucket by a chain of distinct keys that all hash to it,
      and that holds the same pairs as before except for key k, keeps the
      table invariant and every lookup of another key. */
  lemma ReplaceBucket<K, V>(bs: seq<Bucket<K, V>>, h: K -> nat, i: nat, b': Bucket<K, V>, k: K)
    requires WellFormed(bs, h) && i < |bs|
    requires DistinctKeys(b')
    requires forall q :: 0 <= q < |b'| ==> Index(h, b'[q].0, |bs|) == i
    requires forall x: (K, V) :: x.0 != k ==> multiset(b')[x] == multiset(bs[i])[x]
    ensures WellFormed(bs[i := b'], h)
    ensures forall k' :: k' != k ==> Lookup(bs[i := b'], h, k') == Lookup(bs, h, k')
    ensures Size(bs[i := b']) + |bs[i]| == Size(bs) + |b'|
  {
    var r: seq<seq<(K, V)>> := bs[i := b'];
    FlattenUpdate(bs, i, b');
    assert Placed(r, h) by {
      forall j: int, q: int | 0 <= j < |r| && 0 <= q < |r[j]| ensures Index(h, r[j][q].0, |r|) == j {
        if j != i {
          assert r[j][q] == bs[j][q];
        }
      }
    }
    assert forall j :: 0 <= j < |r| ==> DistinctKeys(r[j]) by {
      forall j | 0 <= j < |r| ensures DistinctKeys(r[j]) {
        if j != i {
          assert r[j] == bs[j];
        }
      }
    }
    forall k' | k' != k ensures Lookup(r, h, k') == Lookup(bs, h, k') {
      forall x: (K, V) | x.0 == k' ensures x in multiset(Flatten(r)) <==> x in multiset(Flatten(bs)) {
        assert (multiset(Flatten(r)) + multiset(bs[i]))[x] == (multiset(Flatten(bs)) + multiset(b'))[x];
      }
      LookupSame(r, bs, h, k');
    }
  }

  lemma UpdateCounts<T>(b: seq<T>, p: nat, y: T)
    requires p < |b|
    ensures multiset(b[p := y]) == multiset(b) - multiset{b[p]} + multiset{y}
  {
    assert b == b[..p] + [b[p]] + b[p + 1..];
    assert b[p := y] == b[..p] + [y] + b[p + 1..];
  }

  lemma PlaceCorrect<K, V>(bs: seq<Bucket<K, V>>, h: K -> nat, k: K, v: V)
    requires WellFormed(bs, h)
    ensures var r := Place(bs, h, k, v);
      && WellFormed(r, h)
      && Lookup(r, h, k) == Some(v)
      && (forall k' :: k' != k ==> Lookup(r, h, k') == Lookup(bs, h, k'))
      && Size(r) == Size(bs) + (if Lookup(bs, h, k).Some? then 0 else 1)
  {
    var r := Place(bs, h, k, v);
    var i := Index(h, k, |bs|);
    var b := bs[i];
    var b' := r[i];
    assert r == bs[i := b'];
    var pos: nat;
    match Find(b, k) {
      case Some(p) =>
        assert b' == b[p := (k, v)];
        assert DistinctKeys(b);
        assert forall q :: 0 <= q < |b'| ==> b'[q].0 == b[q].0;
        UpdateCounts(b, p, (k, v));
        pos := p;
      case None =>
        assert b' == b + [(k, v)];
        DistinctSnoc(b, (k, v));
        pos := |b|;
    }
    assert b'[pos] == (k, v);
    ReplaceBucket(bs, h, i, b', k);
    FlattenMember(r, (k, v));
    LookupIff(r, h, k, v);
  }

  /** insert on a well-formed table: the invariant holds afterwards, get(k)
      yields the new value, every other key reads as before, the count
      grows by one exactly when k was absent, and the key set gains k. */
  lemma UpsertCorrect<K, V>(bs: seq<Bucket<K, V>>, h: K -> nat, k: K, v: V)
    requires WellFormed(bs, h)
    ensures var r := Upsert(bs, h, k, v);
      && WellFormed(r, h)
      && |r| == (if NeedsResize(Size(bs), |bs|) then 2 * |bs| else |bs|)
      && Lookup(r, h, k) == Some(v)
      && (forall k' :: k' != k ==> Lookup(r, h, k') == Lookup(bs, h, k'))
      && Size(r) == Size(bs) + (if Lookup(bs, h, k).Some? then 0 else 1)
      && Keys(r) == Keys(bs) + {k}
  {
    var pre := Prepared(bs, h);
    var r := Upsert(bs, h, k, v);
    PreparedCorrect(bs, h);
    PlaceCorrect(pre, h, k, v);
    forall k' ensures Lookup(r, h, k').Some? <==> k' in Keys(bs) + {k} {
      LookupSpec(bs, h, k');
    }
    KeysByLookup(r, h, Keys(bs) + {k});
  }

  /** The two conjuncts of UpsertCorrect that the range-insert induction
      needs, split off so that its proof does not carry the whole insert
      contract (which makes the verifier slow). */
  lemma UpsertKeys<K, V>(bs: seq<Bucket<K, V>>, h: K -> nat, k: K, v: V)
    requires WellFormed(bs, h)
    ensures WellFormed(Upsert(bs, h, k, v), h)
    ensures Keys(Upsert(bs, h, k, v)) == Keys(bs) + {k}
  {
    UpsertCorrect(bs, h, k, v);
  }

  /** Range insert on a well-formed table keeps the invariant, and the key
      set gains the keys of the input. */
  lemma {:induction false} UpsertAllKeys<K, V>(bs: seq<Bucket<K, V>>, h: K -> nat, ps: seq<(K, V)>)
    requires WellFormed(bs, h)
    ensures WellFormed(UpsertAll(bs, h, ps), h)
    ensures Keys(UpsertAll(bs, h, ps)) == Keys(bs) + KeysOf(ps)
    decreases |ps|
  {
    if ps == [] {
      assert KeysOf(ps) == {};
    } else {
      var init := ps[..|ps| - 1];
      var p := ps[|ps| - 1];
      var mid := UpsertAll(bs, h, init);
      assert UpsertAll(bs, h, ps) == Upsert(mid, h, p.0, p.1);
      UpsertAllKeys(bs, h, init);
      UpsertKeys(mid, h, p.0, p.1);
      KeysOfLast(ps);
      UnionStep(Keys(UpsertAll(bs, h, ps)), Keys(mid), Keys(bs), KeysOf(init), KeysOf(ps), p.0);
    }
  }

  /** The set algebra of one step of UpsertAllKeys, kept apart from the
      definitions of the sets involved. */
  lemma UnionStep<T>(after: set<T>, mid: set<T>, before: set<T>, added: set<T>, all: set<T>, k: T)
    requires after == mid + {k} && mid == before + added && all == added + {k}
    ensures after == before + all
  {
  }

  /** After a range insert, a key's value is the one its LAST occurrence in
      the input carries (later duplicates overwrite earlier ones); a key the
      input does not mention reads as before. */
  lemma {:induction false} UpsertAllLookup<K, V>(bs: seq<Bucket<K, V>>, h: K -> nat, ps: seq<(K, V)>, k: K)
    requires WellFormed(bs, h)
    ensures |UpsertAll(bs, h, ps)| > 0
    ensures Lookup(UpsertAll(bs, h, ps), h, k) == if LastValue(ps, k).Some? then LastValue(ps, k) else Lookup(bs, h, k)
    decreases |ps|
  {
    UpsertAllKeys(bs, h, ps);
    if ps != [] {
      var init := ps[..|ps| - 1];
      var p := ps[|ps| - 1];
      UpsertAllLookup(bs, h, init, k);
      UpsertAllKeys(bs, h, init);
      UpsertCorrect(UpsertAll(bs, h, init), h, p.0, p.1);
    }
  }

  /** From a one-bucket table, range insert never grows the table: the
      growth test compares the count with 3 * 1 / 4 == 0. */
  lemma {:induction false} UpsertAllOneBucket<K, V>(bs: seq<Bucket<K, V>>, h: K -> nat, ps: seq<(K, V)>)
    requires |bs| == 1
    ensures |UpsertAll(bs, h, ps)| == 1
    decreases |ps|
  {
    if ps != [] {
      UpsertAllOneBucket(bs, h, ps[..|ps| - 1]);
      var mid := UpsertAll(bs, h, ps[..|ps| - 1]);
      assert !NeedsResize(Size(mid), |mid|);
    }
  }

  /** For a table with buckets, the growth test fires exactly when the count
      is at least one below three quarters of the bucket count: when the
      load is LOW, not when it is high. */
  lemma ResizeTrigger(items: nat, n: nat)
    requires n > 0
    ensures NeedsResize(items, n) <==> 4 * items + 4 <= 3 * n
    ensures n == 1 ==> !NeedsResize(items, n)
  {
  }

  // ---------------------------------------------------------------------
  // erase

  /** erase of a stored key: the invariant holds afterwards, get(k) finds
      nothing, every other key reads as before, the count drops by one and
      the key set loses k. */
  lemma RemovedCorrect<K, V>(bs: seq<Bucket<K, V>>, h: K -> nat, k: K)
    requires WellFormed(bs, h) && k in Keys(bs)
    ensures Find(bs[Index(h, k, |bs|)], k).Some?
    ensures var r := Removed(bs, h, k);
      && WellFormed(r, h)
      && Lookup(r, h, k) == None
      && (forall k' :: k' != k ==> Lookup(r, h, k') == Lookup(bs, h, k'))
      && Size(r) + 1 == Size(bs)
      && Keys(r) == Keys(bs) - {k}
  {
    LookupSpec(bs, h, k);
    var i := Index(h, k, |bs|);
    var b := bs[i];
    var p := Find(b, k).value;
    var r: seq<seq<(K, V)>> := Removed(bs, h, k);
    RemovedKeepsOthers(bs, h, k);
    assert r[i] == b[..p] + b[p + 1..];
    assert DistinctKeys(b);
    EraseAt(b, p);
    AbsentFromBucket(r, h, k);
    LookupSpec(r, h, k);
    KeysAfterErase(bs, r, h, k);
  }

  /** Taking the pair with key k out of its bucket keeps the table
      invariant, every lookup of another key, and lowers the count by one. */
  lemma RemovedKeepsOthers<K, V>(bs: seq<Bucket<K, V>>, h: K -> nat, k: K)
    requires WellFormed(bs, h) && Find(bs[Index(h, k, |bs|)], k).Some?
    ensures var r := Removed(bs, h, k);
      && WellFormed(r, h)
      && (forall k' :: k' != k ==> Lookup(r, h, k') == Lookup(bs, h, k'))
      && Size(r) + 1 == Size(bs)
  {
    var i := Index(h, k, |bs|);
    var b := bs[i];
    var p := Find(b, k).value;
    var b' := b[..p] + b[p + 1..];
    ErasedBucket(bs, h, i, p, k);
    assert Removed(bs, h, k) == bs[i := b'];
    ReplaceBucket(bs, h, i, b', k);
  }

  /** The bucket left by erasing position p, which holds key k: its keys
      are distinct, all hash to the bucket, and only pairs with key k lost
      an occurrence. */
  lemma ErasedBucket<K, V>(bs: seq<Bucket<K, V>>, h: K -> nat, i: nat, p: nat, k: K)
    requires WellFormed(bs, h) && i < |bs| && p < |bs[i]| && bs[i][p].0 == k
    ensures var b' := bs[i][..p] + bs[i][p + 1..];
      && DistinctKeys(b')
      && (forall q :: 0 <= q < |b'| ==> Index(h, b'[q].0, |bs|) == i)
      && (forall x: (K, V) :: x.0 != k ==> multiset(b')[x] == multiset(bs[i])[x])
  {
    var b := bs[i];
    var b' := b[..p] + b[p + 1..];
    assert DistinctKeys(b);
    EraseAt(b, p);
    forall q | 0 <= q < |b'| ensures Index(h, b'[q].0, |bs|) == i {
      assert bs[i][if q < p then q else q + 1] == b'[q];
    }
    forall x: (K, V) | x.0 != k ensures multiset(b')[x] == multiset(b)[x] {
      assert x != b[p];
    }
  }

  /** A key its own bucket does not hold is stored nowhere. */
  lemma AbsentFromBucket<K, V>(bs: seq<Bucket<K, V>>, h: K -> nat, k: K)
    requires WellFormed(bs, h)
    requires forall q :: 0 <= q < |bs[Index(h, k, |bs|)]| ==> bs[Index(h, k, |bs|)][q].0 != k
    ensures k !in Keys(bs)
  {
    if k in Keys(bs) {
      var x :| x in Flatten(bs) && x.0 == k;
      FlattenMember(bs, x);
    }
  }

  lemma KeysAfterErase<K, V>(bs: seq<Bucket<K, V>>, r: seq<Bucket<K, V>>, h: K -> nat, k: K)
    requires WellFormed(bs, h) && WellFormed(r, h)
    requires k !in Keys(r)
    requires forall k' :: k' != k ==> Lookup(r, h, k') == Lookup(bs, h, k')
    ensures Keys(r) == Keys(bs) - {k}
  {
    forall k' | k' in Keys(bs) - {k} ensures Lookup(r, h, k').Some? {
      LookupSpec(bs, h, k');
    }
    forall k' | Lookup(r, h, k').Some? ensures k' in Keys(bs) - {k} {
      LookupSpec(bs, h, k');
      LookupSpec(r, h, k');
    }
    KeysByLookup(r, h, Keys(bs) - {k});
  }

  /** Erasing position p of a chain with distinct keys: the rest closes up
      in order, keeps distinct keys, and no longer holds the erased key. */
  lemma EraseAt<K, V>(b: Bucket<K, V>, p: nat)
    requires p < |b| && DistinctKeys(b)
    ensures var b' := b[..p] + b[p + 1..];
      && (forall q :: 0 <= q < |b'| ==> b'[q] == b[if q < p then q else q + 1])
      && (forall q :: 0 <= q < |b'| ==> b'[q].0 != b[p].0)
      && DistinctKeys(b')
      && multiset(b') == multiset(b) - multiset{b[p]}
  {
    var b' := b[..p] + b[p + 1..];
    assert forall q :: 0 <= q < |b'| ==> b'[q] == b[if q < p then q else q + 1];
    assert b == b[..p] + [b[p]] + b[p + 1..];
    forall a, c | 0 <= a < c < |b'| ensures b'[a].0 != b'[c].0 {
      assert b'[a] == b[if a < p then a else a + 1];
      assert b'[c] == b[if c < p then c else c + 1];
    }
  }
}
