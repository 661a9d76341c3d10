/** Bucket sorting by small integer keys, as used by both block sorters and by the inverse transform:
    counting, running sums, and placing every index in the bucket of its key. */
module Buckets {
  import opened Permutations

  /** How often c occurs among the first m keys. */
  ghost function Count(keys: seq<int>, m: int, c: int): nat
    requires 0 <= m <= |keys|
  {
    multiset(keys[..m])[c]
  }

  lemma CountStep(keys: seq<int>, m: int, c: int)
    requires 0 <= m < |keys|
    ensures Count(keys, m + 1, c) == Count(keys, m, c) + if keys[m] == c then 1 else 0
  {
    assert keys[..m + 1] == keys[..m] + [keys[m]];
  }

  lemma CountAll(keys: seq<int>, c: int)
    ensures Count(keys, |keys|, c) == multiset(keys)[c]
  {
    assert keys[..|keys|] == keys;
  }

  lemma {:induction false} CountMonotonic(keys: seq<int>, m: int, m': int, c: int)
    requires 0 <= m <= m' <= |keys|
    ensures Count(keys, m, c) <= Count(keys, m', c)
    decreases m' - m
  {
    if m < m' {
      CountStep(keys, m, c);
      CountMonotonic(keys, m + 1, m', c);
    }
  }

  /** The number of keys below c: the start of bucket c. */
  ghost function Start(keys: seq<int>, c: nat): nat {
    if c == 0 then 0 else Start(keys, c - 1) + multiset(keys)[c - 1]
  }

  lemma StartStep(keys: seq<int>, c: nat)
    ensures Start(keys, c + 1) == Start(keys, c) + multiset(keys)[c]
  {
  }

  lemma CountNone(keys: seq<int>, c: int)
    ensures Count(keys, 0, c) == 0
  {
    assert keys[..0] == [];
  }

  lemma {:induction false} StartAppend(keys: seq<int>, x: int, c: nat)
    requires x >= 0
    ensures Start(keys + [x], c) == Start(keys, c) + if x < c then 1 else 0
    decreases c
  {
    if c > 0 { StartAppend(keys, x, c - 1); }
  }

  lemma {:induction false} StartEmpty(c: nat)
    ensures Start([], c) == 0
    decreases c
  {
    if c > 0 { StartEmpty(c - 1); }
  }

  /** The buckets exhaust the keys. */
  lemma {:induction false} StartTotal(keys: seq<int>, bound: nat)
    requires forall i | 0 <= i < |keys| :: 0 <= keys[i] < bound
    ensures Start(keys, bound) == |keys|
    decreases |keys|
  {
    if keys == [] {
      StartEmpty(bound);
    } else {
      var front := keys[..|keys| - 1];
      assert keys == front + [keys[|keys| - 1]];
      StartTotal(front, bound);
      StartAppend(front, keys[|keys| - 1], bound);
    }
  }

  lemma {:induction false} StartMonotonic(keys: seq<int>, c: nat, c': nat)
    requires c <= c'
    ensures Start(keys, c) <= Start(keys, c')
    decreases c' - c
  {
    if c < c' { StartMonotonic(keys, c, c' - 1); }
  }

  /** Position k lies in bucket c. */
  ghost predicate InBucket(keys: seq<int>, c: int, k: int) {
    c >= 0 && Start(keys, c) <= k < Start(keys, c + 1)
  }

  /** Buckets do not overlap, and are ordered by key. */
  lemma BucketOrder(keys: seq<int>, c: int, k: int, c': int, k': int)
    requires InBucket(keys, c, k) && InBucket(keys, c', k')
    ensures c < c' ==> k < k'
    ensures k <= k' ==> c <= c'
  {
    if c < c' { StartMonotonic(keys, c + 1, c'); }
    if c' < c { StartMonotonic(keys, c' + 1, c); }
  }

  /** f puts every index in the bucket of its key: f is a permutation of the indices, and the entry
      at a position of bucket c has key c. */
  ghost predicate Bucketed(keys: seq<int>, f: seq<int>) {
    && IsPermutation(f, |keys|)
    && forall k | 0 <= k < |f| :: InBucket(keys, keys[f[k]], k)
  }

  lemma BucketedSorted(keys: seq<int>, f: seq<int>, i: int, j: int)
    requires Bucketed(keys, f) && 0 <= i <= j < |f|
    ensures keys[f[i]] <= keys[f[j]]
  {
    BucketOrder(keys, keys[f[i]], i, keys[f[j]], j);
  }

  /** In a bucketed sequence the positions of bucket c are exactly those whose entry has key c. */
  lemma BucketedContent(keys: seq<int>, f: seq<int>, c: nat, k: int)
    requires Bucketed(keys, f) && 0 <= k < |f|
    ensures keys[f[k]] == c <==> InBucket(keys, c, k)
  {
    if InBucket(keys, c, k) {
      BucketOrder(keys, keys[f[k]], k, c, k);
    }
  }

  /** Where the j-th index goes when the bucket of its key is filled upwards... */
  ghost function UpPlace(keys: seq<int>, j: int): int
    requires 0 <= j < |keys| && keys[j] >= 0
  {
    Start(keys, keys[j]) + Count(keys, j, keys[j])
  }

  /** ... and when it is filled downwards. */
  ghost function DownPlace(keys: seq<int>, j: int): int
    requires 0 <= j < |keys| && keys[j] >= 0
  {
    Start(keys, keys[j] + 1) - 1 - Count(keys, j, keys[j])
  }

  lemma PlacesInBucket(keys: seq<int>, j: int)
    requires 0 <= j < |keys| && keys[j] >= 0
    ensures InBucket(keys, keys[j], UpPlace(keys, j))
    ensures InBucket(keys, keys[j], DownPlace(keys, j))
  {
    CountStep(keys, j, keys[j]);
    CountMonotonic(keys, j + 1, |keys|, keys[j]);
    CountAll(keys, keys[j]);
  }

  lemma PlacesDiffer(keys: seq<int>, i: int, j: int)
    requires 0 <= i < j < |keys| && keys[i] >= 0 && keys[j] >= 0
    ensures UpPlace(keys, i) != UpPlace(keys, j)
    ensures DownPlace(keys, i) != DownPlace(keys, j)
    ensures keys[i] == keys[j] ==> UpPlace(keys, i) < UpPlace(keys, j)
  {
    PlacesInBucket(keys, i);
    PlacesInBucket(keys, j);
    if keys[i] == keys[j] {
      CountStep(keys, i, keys[i]);
      CountMonotonic(keys, i + 1, j, keys[i]);
    } else {
      BucketOrder(keys, keys[i], UpPlace(keys, i), keys[j], UpPlace(keys, j));
      BucketOrder(keys, keys[j], UpPlace(keys, j), keys[i], UpPlace(keys, i));
      BucketOrder(keys, keys[i], DownPlace(keys, i), keys[j], DownPlace(keys, j));
      BucketOrder(keys, keys[j], DownPlace(keys, j), keys[i], DownPlace(keys, i));
    }
  }

  lemma PlaceInRange(keys: seq<int>, bound: nat, c: int, k: int)
    requires forall i | 0 <= i < |keys| :: 0 <= keys[i] < bound
    requires InBucket(keys, c, k) && c < bound
    ensures 0 <= k < |keys|
  {
    StartTotal(keys, bound);
    StartMonotonic(keys, c + 1, bound);
  }

  /** Placing every index at its own place, one per position, fills the whole table. */
  lemma PlacedIsBucketed(keys: seq<int>, bound: nat, place: seq<int>, f: seq<int>)
    requires forall i | 0 <= i < |keys| :: 0 <= keys[i] < bound
    requires |place| == |f| == |keys|
    requires forall i | 0 <= i < |keys| :: InBucket(keys, keys[i], place[i])
    requires NoDuplicates(place)
    requires forall i | 0 <= i < |keys| :: 0 <= place[i] < |f| && f[place[i]] == i
    ensures Bucketed(keys, f)
  {
    assert IsPermutation(place, |keys|);
    forall k | 0 <= k < |f| ensures 0 <= f[k] < |keys| && place[f[k]] == k {
      var i := PermutationIndex(place, |keys|, k);
    }
  }
}
