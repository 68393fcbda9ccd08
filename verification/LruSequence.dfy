/**
 The cache as its documentation describes it: a sequence of entries from the
 least to the most recently used one.  The slab with its intrusive links
 (module CacheState) is proved to behave like these functions.
 */
module LruSequence {
  import opened Prelude

  datatype Entry<K, R> = Entry(key: K, response: R, expiresAt: int, weight: nat)

  function WeightOfFirst<K, R>(s: seq<Entry<K, R>>, n: nat): nat
    requires n <= |s|
  {
    if n == 0 then 0 else WeightOfFirst(s, n - 1) + s[n - 1].weight
  }

  /** The total weight of the entries. */
  function Weight<K, R>(s: seq<Entry<K, R>>): nat {
    WeightOfFirst(s, |s|)
  }

  ghost predicate DistinctKeys<K, R>(s: seq<Entry<K, R>>) {
    forall i, j :: 0 <= i < j < |s| ==> s[i].key != s[j].key
  }

  ghost predicate Holds<K, R>(s: seq<Entry<K, R>>, key: K) {
    exists i :: 0 <= i < |s| && s[i].key == key
  }

  /** The position of a key, or the length when the key is absent. */
  function Find<K(==), R>(s: seq<Entry<K, R>>, key: K): (i: nat)
    ensures i <= |s|
    ensures i < |s| ==> s[i].key == key
    ensures forall j :: 0 <= j < i ==> s[j].key != key
  {
    if s == [] || s[0].key == key then 0 else 1 + Find(s[1..], key)
  }

  function RemoveKey<K(==), R>(s: seq<Entry<K, R>>, key: K): seq<Entry<K, R>> {
    var i := Find(s, key);
    if i < |s| then RemoveAt(s, i) else s
  }

  /** Drop least recently used entries until an entry of this weight fits. */
  function MakeRoom<K, R>(s: seq<Entry<K, R>>, weight: nat, capacity: nat): seq<Entry<K, R>> {
    if s != [] && Weight(s) + weight > capacity then MakeRoom(s[1..], weight, capacity) else s
  }

  function Insert<K(==), R>(s: seq<Entry<K, R>>, e: Entry<K, R>, capacity: nat): seq<Entry<K, R>> {
    MakeRoom(RemoveKey(s, e.key), e.weight, capacity) + [e]
  }

  /** A hit makes its entry the most recently used one. */
  function Touch<K, R>(s: seq<Entry<K, R>>, i: nat): seq<Entry<K, R>>
    requires i < |s|
  {
    RemoveAt(s, i) + [s[i]]
  }

  lemma {:induction false} WeightOfPrefix<K, R>(a: seq<Entry<K, R>>, b: seq<Entry<K, R>>, n: nat)
    requires n <= |a|
    ensures WeightOfFirst(a + b, n) == WeightOfFirst(a, n)
  {
    if n > 0 {
      WeightOfPrefix(a, b, n - 1);
    }
  }

  lemma WeightAppend<K, R>(s: seq<Entry<K, R>>, e: Entry<K, R>)
    ensures Weight(s + [e]) == Weight(s) + e.weight
  {
    WeightOfPrefix(s, [e], |s|);
  }

  lemma {:induction false} WeightConcat<K, R>(a: seq<Entry<K, R>>, b: seq<Entry<K, R>>)
    ensures Weight(a + b) == Weight(a) + Weight(b)
  {
    if b == [] {
      assert a + b == a;
    } else {
      var front, last := b[..|b| - 1], b[|b| - 1];
      assert a + b == (a + front) + [last] && b == front + [last];
      WeightConcat(a, front);
      WeightAppend(a + front, last);
      WeightAppend(front, last);
    }
  }

  lemma WeightRemoveAt<K, R>(s: seq<Entry<K, R>>, i: nat)
    requires i < |s|
    ensures Weight(s) == Weight(RemoveAt(s, i)) + s[i].weight
  {
    assert s == s[..i] + ([s[i]] + s[i + 1..]);
    WeightConcat(s[..i], [s[i]] + s[i + 1..]);
    WeightConcat([s[i]], s[i + 1..]);
    WeightConcat(s[..i], s[i + 1..]);
    WeightAppend([], s[i]);
    assert [] + [s[i]] == [s[i]];
  }

  /** Eviction drops the shortest prefix that makes room. */
  lemma {:induction false} MakeRoomDropsShortestPrefix<K, R>(s: seq<Entry<K, R>>, weight: nat, capacity: nat)
    returns (n: nat)
    ensures n <= |s| && MakeRoom(s, weight, capacity) == s[n..]
    ensures n < |s| ==> Weight(s[n..]) + weight <= capacity
    ensures forall m :: 0 <= m < n ==> Weight(s[m..]) + weight > capacity
  {
    if s != [] && Weight(s) + weight > capacity {
      var k := MakeRoomDropsShortestPrefix(s[1..], weight, capacity);
      n := k + 1;
      assert s[1..][k..] == s[n..];
      forall m | 0 <= m < n
        ensures Weight(s[m..]) + weight > capacity
      {
        if m == 0 {
          assert s[0..] == s;
        } else {
          assert s[m..] == s[1..][m - 1..];
        }
      }
    } else {
      n := 0;
      assert s[0..] == s;
    }
  }

  lemma RemoveAtMembers<K, R>(s: seq<Entry<K, R>>, i: nat)
    requires i < |s| && DistinctKeys(s)
    ensures DistinctKeys(RemoveAt(s, i))
    ensures forall x :: x in RemoveAt(s, i) <==> x in s && x.key != s[i].key
  {
    var r := RemoveAt(s, i);
    forall j | 0 <= j < |s| && j != i
      ensures s[j] in r
    {
      assert r[if j < i then j else j - 1] == s[j];
    }
  }

  lemma RemoveKeyForgets<K, R>(s: seq<Entry<K, R>>, key: K)
    requires DistinctKeys(s)
    ensures DistinctKeys(RemoveKey(s, key)) && !Holds(RemoveKey(s, key), key)
    ensures Weight(RemoveKey(s, key)) <= Weight(s)
    ensures forall x :: x in RemoveKey(s, key) <==> x in s && x.key != key
  {
    var i := Find(s, key);
    if i < |s| {
      WeightRemoveAt(s, i);
      RemoveAtMembers(s, i);
    }
  }

  lemma TouchKeepsEntries<K, R>(s: seq<Entry<K, R>>, i: nat)
    requires i < |s| && DistinctKeys(s)
    ensures DistinctKeys(Touch(s, i)) && Weight(Touch(s, i)) == Weight(s)
    ensures forall x :: x in Touch(s, i) <==> x in s
  {
    WeightRemoveAt(s, i);
    WeightAppend(RemoveAt(s, i), s[i]);
    RemoveAtMembers(s, i);
  }

  /**
   What an insertion leaves: the new entry is last, any earlier entry with its
   key is gone, the others keep their order, and the weights fit.
   */
  lemma InsertFits<K, R>(s: seq<Entry<K, R>>, e: Entry<K, R>, capacity: nat)
    requires DistinctKeys(s) && e.weight <= capacity
    ensures DistinctKeys(Insert(s, e, capacity))
    ensures Weight(Insert(s, e, capacity)) <= capacity
    ensures forall x :: x in Insert(s, e, capacity) ==> x == e || (x in s && x.key != e.key)
  {
    var rest := RemoveKey(s, e.key);
    RemoveKeyForgets(s, e.key);
    var n := MakeRoomDropsShortestPrefix(rest, e.weight, capacity);
    WeightAppend(rest[n..], e);
    assert forall j :: n <= j < |rest| ==> rest[j] in rest;
  }
}
