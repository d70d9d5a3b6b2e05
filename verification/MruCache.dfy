/**
  The bounded cache of vlr-util/util.MRUCache.h: a list of keys, the newest addition first, and a map
  of values. A key that is added again gets a second place in the list.
*/
module MruCache {

  datatype Status = Success | SuccessNoWorkDone

  // ---------- Truncation ----------

  function Kept<K>(l: seq<K>, n: nat): seq<K> {
    if |l| > n then l[..n] else l
  }

  function Dropped<K>(l: seq<K>, n: nat): seq<K> {
    if |l| > n then l[n..] else []
  }

  function Keys<K(==)>(l: seq<K>): set<K> {
    set k | k in l
  }

  ghost predicate NoDuplicates<K>(l: seq<K>) {
    forall i, j :: 0 <= i < j < |l| ==> l[i] != l[j]
  }

  /** The map holds exactly the keys of the list. */
  ghost predicate Full<K, V>(l: seq<K>, m: map<K, V>) {
    m.Keys == Keys(l)
  }

  /** Truncation keeps the map full exactly when no key has a kept and a dropped place. */
  lemma FullAfterTruncationIff<K, V>(l: seq<K>, m: map<K, V>, n: nat)
    requires Full(l, m)
    ensures Full(Kept(l, n), m - Keys(Dropped(l, n))) <==> Keys(Kept(l, n)) !! Keys(Dropped(l, n))
  {}

  /** No key is listed twice, and the map holds exactly the keys of the list. */
  ghost predicate Exact<K, V>(l: seq<K>, m: map<K, V>) {
    NoDuplicates(l) && Full(l, m)
  }

  lemma ExactAfterTruncation<K, V>(l: seq<K>, m: map<K, V>, n: nat)
    requires Exact(l, m)
    ensures Exact(Kept(l, n), m - Keys(Dropped(l, n)))
  {
    FullAfterTruncationIff(l, m, n);
  }

  lemma ExactAfterAdd<K, V>(l: seq<K>, m: map<K, V>, k: K, v: V)
    requires Exact(l, m) && k !in l
    ensures Exact([k] + l, m[k := v])
  {
    FullAfterAdd(l, m, k, v);
  }

  // ---------- The history of additions ----------

  /** The value of the key's newest addition. */
  ghost predicate IsLatest<K, V>(history: seq<(K, V)>, k: K, v: V) {
    history != [] && if history[0].0 == k then history[0].1 == v else IsLatest(history[1..], k, v)
  }

  /** The list is a prefix of the keys added, the newest first. */
  ghost predicate FromHistory<K, V>(l: seq<K>, history: seq<(K, V)>) {
    |l| <= |history| && forall i :: 0 <= i < |l| ==> l[i] == history[i].0
  }

  ghost predicate Consistent<K, V>(l: seq<K>, m: map<K, V>, history: seq<(K, V)>) {
    && FromHistory(l, history)
    && m.Keys <= Keys(l)
    && forall k :: k in m ==> IsLatest(history, k, m[k])
  }

  lemma ConsistentAfterAdd<K, V>(l: seq<K>, m: map<K, V>, history: seq<(K, V)>, k: K, v: V)
    requires Consistent(l, m, history)
    ensures Consistent([k] + l, m[k := v], [(k, v)] + history)
  {}

  lemma ConsistentAfterTruncation<K, V>(l: seq<K>, m: map<K, V>, history: seq<(K, V)>, n: nat)
    requires Consistent(l, m, history)
    ensures Consistent(Kept(l, n), m - Keys(Dropped(l, n)), history)
  {}

  lemma FullAfterAdd<K, V>(l: seq<K>, m: map<K, V>, k: K, v: V)
    requires Full(l, m)
    ensures Full([k] + l, m[k := v])
  {}

  // ---------- One addition, one resizing ----------

  function AddedList<K>(l: seq<K>, n: nat, k: K): seq<K> {
    Kept([k] + l, n)
  }

  function AddedMap<K(==), V>(l: seq<K>, m: map<K, V>, n: nat, k: K, v: V): map<K, V> {
    m[k := v] - Keys(Dropped([k] + l, n))
  }

  function TruncatedMap<K(==), V>(l: seq<K>, m: map<K, V>, n: nat): map<K, V> {
    m - Keys(Dropped(l, n))
  }

  lemma TruncationKeeps<K, V>(l: seq<K>, m: map<K, V>, history: seq<(K, V)>, n: nat)
    requires Consistent(l, m, history)
    ensures Consistent(Kept(l, n), TruncatedMap(l, m, n), history)
    ensures Full(l, m) ==> (Full(Kept(l, n), TruncatedMap(l, m, n)) <==> Keys(Kept(l, n)) !! Keys(Dropped(l, n)))
    ensures Exact(l, m) ==> Exact(Kept(l, n), TruncatedMap(l, m, n))
  {
    ConsistentAfterTruncation(l, m, history, n);
    if Full(l, m) {
      FullAfterTruncationIff(l, m, n);
    }
    if Exact(l, m) {
      ExactAfterTruncation(l, m, n);
    }
  }

  lemma AdditionKeeps<K, V>(l: seq<K>, m: map<K, V>, history: seq<(K, V)>, n: nat, k: K, v: V)
    requires Consistent(l, m, history)
    ensures Consistent(AddedList(l, n, k), AddedMap(l, m, n, k, v), [(k, v)] + history)
    ensures Full(l, m) ==>
      (Full(AddedList(l, n, k), AddedMap(l, m, n, k, v)) <==> Keys(AddedList(l, n, k)) !! Keys(Dropped([k] + l, n)))
    ensures Exact(l, m) && k !in l ==> Exact(AddedList(l, n, k), AddedMap(l, m, n, k, v))
  {
    ConsistentAfterAdd(l, m, history, k, v);
    if Full(l, m) {
      FullAfterAdd(l, m, k, v);
    }
    if Exact(l, m) && k !in l {
      ExactAfterAdd(l, m, k, v);
    }
    TruncationKeeps([k] + l, m[k := v], [(k, v)] + history, n);
  }

  // ---------- Whole runs under one limit ----------

  function KeysOf<K, V>(history: seq<(K, V)>): (l: seq<K>)
    ensures |l| == |history| && forall i :: 0 <= i < |l| ==> l[i] == history[i].0
  {
    seq(|history|, i requires 0 <= i < |history| => history[i].0)
  }

  /** The map after the additions of the history, all under the limit n. */
  function MapAfter<K(==), V>(history: seq<(K, V)>, n: nat): map<K, V> {
    if history == [] then map[]
    else AddedMap(Kept(KeysOf(history[1..]), n), MapAfter(history[1..], n), n, history[0].0, history[0].1)
  }

  /** The index of the key's newest addition, or the length if there is none. */
  function NewestIndex<K(==), V>(history: seq<(K, V)>, k: K): (i: nat)
    ensures i <= |history| && (i < |history| ==> history[i].0 == k)
  {
    if history == [] || history[0].0 == k then 0 else 1 + NewestIndex(history[1..], k)
  }

  /** Every addition beyond the limit drops the key that was added that many additions before. */
  lemma DroppedByAddition<K, V>(history: seq<(K, V)>, n: nat)
    requires history != []
    ensures Keys(Dropped([history[0].0] + Kept(KeysOf(history[1..]), n), n)) == if n < |history| then {history[n].0} else {}
    ensures AddedList(Kept(KeysOf(history[1..]), n), n, history[0].0) == Kept(KeysOf(history), n)
  {
    var x, rest := history[0].0, KeysOf(history[1..]);
    var all, l := KeysOf(history), [history[0].0] + Kept(KeysOf(history[1..]), n);
    assert all == [x] + rest;
    if n < |history| {
      assert l == all[..n + 1];
      assert l[n..] == [all[n]];
      assert l[..n] == all[..n];
    } else {
      assert l == all;
    }
  }

  /** k has no addition with an index from n to n + i. */
  ghost predicate NotDropped<K, V>(history: seq<(K, V)>, n: nat, k: K, i: nat) {
    forall j :: n <= j <= n + i && j < |history| ==> history[j].0 != k
  }

  lemma NotDroppedNext<K, V>(history: seq<(K, V)>, n: nat, k: K, i: nat)
    requires history != []
    ensures NotDropped(history, n, k, i + 1) <==> (n < |history| ==> history[n].0 != k) && NotDropped(history[1..], n, k, i)
  {
    var rest := history[1..];
    if (n < |history| ==> history[n].0 != k) && NotDropped(rest, n, k, i) {
      forall j | n <= j <= n + (i + 1) && j < |history| ensures history[j].0 != k {
        if j > n {
          assert rest[j - 1] == history[j];
        }
      }
    }
    if NotDropped(history, n, k, i + 1) {
      forall j | n <= j <= n + i && j < |rest| ensures rest[j].0 != k {
        assert rest[j] == history[j + 1];
      }
    }
  }

  /**
    After any additions under the limit n, a key is held exactly if its newest addition is among the last
    n and none of its older ones has left the list since. What is held is the newest value.
  */
  lemma {:induction false} HeldIff<K, V>(history: seq<(K, V)>, n: nat, k: K)
    ensures var i := NewestIndex(history, k);
      k in MapAfter(history, n) <==> i < |history| && i < n && NotDropped(history, n, k, i)
    ensures k in MapAfter(history, n) ==> MapAfter(history, n)[k] == history[NewestIndex(history, k)].1
    decreases |history|
  {
    if history != [] {
      var rest := history[1..];
      DroppedByAddition(history, n);
      if history[0].0 != k {
        HeldIff(rest, n, k);
        NotDroppedNext(history, n, k, NewestIndex(rest, k));
      }
      var i := NewestIndex(history, k);
      assert n <= i < |history| ==> !NotDropped(history, n, k, i);
    }
  }

  lemma SteadyAddition<K, V>(history: seq<(K, V)>, n: nat, k: K, v: V)
    ensures var longer := [(k, v)] + history;
      && AddedList(Kept(KeysOf(history), n), n, k) == Kept(KeysOf(longer), n)
      && AddedMap(Kept(KeysOf(history), n), MapAfter(history, n), n, k, v) == MapAfter(longer, n)
  {
    var longer := [(k, v)] + history;
    assert longer[1..] == history;
    DroppedByAddition(longer, n);
  }

  class CMRUCache<K(!new, ==), V(!new)> {
    var keyList: seq<K>
    var keyValueMap: map<K, V>
    var cacheSize: nat

    // All additions, the newest first.
    ghost var history: seq<(K, V)>

    ghost predicate Valid()
      reads this
    {
      Consistent(keyList, keyValueMap, history) && |keyList| <= cacheSize
    }

    /** The state is that of a run under the present limit. */
    ghost predicate Steady()
      reads this
    {
      keyList == Kept(KeysOf(history), cacheSize) && keyValueMap == MapAfter(history, cacheSize)
    }

    constructor ()
      ensures Valid() && Steady() && Exact(keyList, keyValueMap) && keyList == [] && keyValueMap == map[] && cacheSize == 100 && history == []
    {
      keyList, keyValueMap, cacheSize, history := [], map[], 100, [];
    }

    method TruncateCacheToMaxSize() returns (status: Status)
      modifies this`keyList, this`keyValueMap
      ensures status == Success
      ensures keyList == Kept(old(keyList), cacheSize)
      ensures keyValueMap == TruncatedMap(old(keyList), old(keyValueMap), cacheSize)
    {
      while |keyList| > cacheSize
        invariant keyList <= old(keyList)
        invariant |keyList| >= cacheSize || keyList == old(keyList)
        invariant keyValueMap == old(keyValueMap) - Keys(old(keyList)[|keyList|..])
      {
        var n := |keyList| - 1;
        var key := keyList[n];
        assert old(keyList)[n..] == [key] + old(keyList)[n + 1..];
        assert Keys(old(keyList)[n..]) == {key} + Keys(old(keyList)[n + 1..]);
        keyValueMap := keyValueMap - {key};
        keyList := keyList[..n];
      }
      status := Success;
    }

    method SetCacheSize(n: nat) returns (status: Status)
      requires Valid()
      modifies this`keyList, this`keyValueMap, this`cacheSize
      ensures Valid() && status == Success && cacheSize == n
      ensures keyList == Kept(old(keyList), n)
      ensures keyValueMap == TruncatedMap(old(keyList), old(keyValueMap), n)
      ensures old(Full(keyList, keyValueMap)) ==>
        (Full(keyList, keyValueMap) <==> Keys(keyList) !! Keys(Dropped(old(keyList), n)))
      ensures old(Exact(keyList, keyValueMap)) ==> Exact(keyList, keyValueMap)
      ensures history == [] || (old(Steady()) && n == old(cacheSize)) ==> Steady()
    {
      cacheSize := n;
      TruncationKeeps(keyList, keyValueMap, history, n);
      status := TruncateCacheToMaxSize();
    }

    /** A hit gives the value of the key's newest addition; a miss leaves the caller's value. */
    method GetCachedValue(k: K, value: V) returns (status: Status, result: V)
      requires Valid()
      ensures k in keyValueMap ==> status == Success && result == keyValueMap[k] && IsLatest(history, k, result)
      ensures k !in keyValueMap ==> status == SuccessNoWorkDone && result == value
    {
      if k !in keyValueMap {
        return SuccessNoWorkDone, value;
      }
      return Success, keyValueMap[k];
    }

    method AddValueToCache(k: K, v: V) returns (status: Status)
      requires Valid()
      modifies this`keyList, this`keyValueMap, this`history
      ensures Valid() && status == Success && history == [(k, v)] + old(history)
      ensures keyList == AddedList(old(keyList), cacheSize, k)
      ensures keyValueMap == AddedMap(old(keyList), old(keyValueMap), cacheSize, k, v)
      ensures old(Steady()) ==> Steady()
      ensures old(Full(keyList, keyValueMap)) ==>
        (Full(keyList, keyValueMap) <==> Keys(keyList) !! Keys(Dropped([k] + old(keyList), cacheSize)))
      // so the cache holds exactly the listed keys for as long as no key is added again while it is held
      ensures old(Exact(keyList, keyValueMap)) && k !in old(keyList) ==> Exact(keyList, keyValueMap)
    {
      AdditionKeeps(keyList, keyValueMap, history, cacheSize, k, v);
      SteadyAddition(history, cacheSize, k, v);
      status := PushAndTruncate(k, v);
    }

    method PushAndTruncate(k: K, v: V) returns (status: Status)
      modifies this`keyList, this`keyValueMap, this`history
      ensures status == Success && history == [(k, v)] + old(history)
      ensures keyList == AddedList(old(keyList), cacheSize, k)
      ensures keyValueMap == AddedMap(old(keyList), old(keyValueMap), cacheSize, k, v)
    {
      keyList := [k] + keyList;
      keyValueMap := keyValueMap[k := v];
      history := [(k, v)] + history;
      status := TruncateCacheToMaxSize();
    }
  }

  /** Added twice to a cache of size one, a key is in the list but no longer in the map. */
  lemma AddedTwiceIsLost<K(!new), V>(k: K, v: V, w: V)
    ensures Kept([k] + Kept([k], 1), 1) == [k]
    ensures map[k := v][k := w] - Keys(Dropped([k] + Kept([k], 1), 1)) == map[]
  {}
}
