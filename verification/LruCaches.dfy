/** The least-recently-used cache of LRUCache.h: an index of nodes and two lists, one for the
    nodes that may be evicted and one for the locked nodes. A list holds its nodes by key. */
module LruCaches {
  import opened Options

  datatype Node<V> = Node(value: V, isLocked: bool)

  ghost predicate NoDup<K>(s: seq<K>) {
    forall i, j :: 0 <= i < j < |s| ==> s[i] != s[j]
  }

  function Elements<K(==)>(s: seq<K>): set<K> {
    set k | k in s
  }

  /** s without its first occurrence of k. */
  function Without<K(==)>(s: seq<K>, k: K): seq<K> {
    if s == [] then [] else if s[0] == k then s[1..] else [s[0]] + Without(s[1..], k)
  }

  /** Removing an element leaves the other elements in their order. */
  lemma {:induction false} WithoutAt<K>(s: seq<K>, k: K) returns (i: nat)
    requires k in s
    ensures i < |s| && s[i] == k && Without(s, k) == s[..i] + s[i + 1..]
  {
    i := 0;
    if s[0] != k {
      var j := WithoutAt(s[1..], k);
      i := j + 1;
    }
  }

  /** The list holds exactly the nodes whose lock flag is the given one. */
  ghost predicate Lists<K(!new), V>(list: seq<K>, index: map<K, Node<V>>, locked: bool) {
    && NoDup(list)
    && forall k :: k in list <==> k in index && index[k].isLocked == locked
  }

  /** The list runs from the latest use to the earliest. */
  ghost predicate LatestFirst<K>(list: seq<K>, lastUse: map<K, nat>) {
    && (forall i :: 0 <= i < |list| ==> list[i] in lastUse)
    && (forall i, j :: 0 <= i < j < |list| ==> lastUse[list[i]] > lastUse[list[j]])
  }

  lemma WithoutSplit<K>(list: seq<K>, k: K)
    requires NoDup(list) && k in list
    ensures NoDup(Without(list, k)) && |Without(list, k)| == |list| - 1
    ensures forall x :: x in Without(list, k) <==> x in list && x != k
    ensures list[|list| - 1] == k ==> Without(list, k) == list[..|list| - 1]
  {
    var i := WithoutAt(list, k);
    var rest := list[..i] + list[i + 1..];
    forall x ensures x in rest <==> x in list && x != k {
      if x in list && x != k {
        var j :| 0 <= j < |list| && list[j] == x;
        assert rest[if j < i then j else j - 1] == x;
      }
    }
  }

  /** Adding a key no list held, at the front. */
  lemma ListsInsert<K(!new), V>(list: seq<K>, index: map<K, Node<V>>, k: K, v: V, locked: bool, lock: bool)
    requires Lists(list, index, locked) && k !in index
    ensures Lists((if lock == locked then [k] else []) + list, index[k := Node(v, lock)], locked)
    ensures forall x :: x in list ==> x in index && x != k
  {
  }

  /** Dropping a key from the index and from its list. */
  lemma ListsRemove<K(!new), V>(list: seq<K>, index: map<K, Node<V>>, k: K, locked: bool)
    requires Lists(list, index, locked) && k in index
    ensures Lists(if index[k].isLocked == locked then Without(list, k) else list, index - {k}, locked)
    ensures index[k].isLocked == locked ==> k in list && |Without(list, k)| == |list| - 1
    ensures k in list && k == list[|list| - 1] ==> index[k].isLocked == locked && Without(list, k) == list[..|list| - 1]
  {
    if index[k].isLocked == locked {
      WithoutSplit(list, k);
    }
  }

  /** Changing the lock of a node moves it from one list to the front of the other. */
  lemma ListsRelock<K(!new), V>(list: seq<K>, index: map<K, Node<V>>, k: K, locked: bool, lock: bool)
    requires Lists(list, index, locked) && k in index && index[k].isLocked != lock
    ensures Lists(if lock == locked then [k] + list else Without(list, k), index[k := index[k].(isLocked := lock)], locked)
    ensures lock == locked ==> k !in list
    ensures lock != locked ==> k in list && |Without(list, k)| == |list| - 1
  {
    if lock == locked {
      var list' := [k] + list;
      forall x ensures x in list' <==> x == k || x in list {}
    } else {
      WithoutSplit(list, k);
    }
  }

  lemma ListsMember<K(!new), V>(list: seq<K>, index: map<K, Node<V>>, locked: bool, i: nat)
    requires Lists(list, index, locked) && i < |list|
    ensures list[i] in index && index[list[i]].isLocked == locked
  {
  }

  lemma ListsMembers<K(!new), V>(list: seq<K>, index: map<K, Node<V>>, locked: bool)
    requires Lists(list, index, locked)
    ensures forall k :: k in list ==> k in index && index[k].isLocked == locked
  {
  }

  lemma ToFront<K(!new), V>(list: seq<K>, index: map<K, Node<V>>, k: K)
    requires Lists(list, index, false) && k in index && !index[k].isLocked
    ensures k in list
    ensures Lists([k] + Without(list, k), index, false) && |Without(list, k)| == |list| - 1
    ensures forall x :: x in Without(list, k) ==> x in index && x != k
  {
    WithoutSplit(list, k);
    var list' := [k] + Without(list, k);
    forall x ensures x in list' <==> x == k || x in Without(list, k) {}
  }

  lemma ListsRevalue<K(!new), V>(list: seq<K>, index: map<K, Node<V>>, k: K, v: V, locked: bool)
    requires Lists(list, index, locked) && k in index
    ensures Lists(list, index[k := Node(v, index[k].isLocked)], locked)
  {
  }

  lemma LatestFirstWithout<K>(list: seq<K>, lastUse: map<K, nat>, k: K)
    requires LatestFirst(list, lastUse) && k in list
    ensures LatestFirst(Without(list, k), lastUse)
  {
    var i := WithoutAt(list, k);
    var rest := list[..i] + list[i + 1..];
    forall p | 0 <= p < |rest| ensures rest[p] == list[if p < i then p else p + 1] {}
  }

  lemma LatestFirstInsert<K>(list: seq<K>, lastUse: map<K, nat>, k: K, clock: nat)
    requires LatestFirst(list, lastUse) && k !in list
    requires forall x :: x in list ==> lastUse[x] < clock
    ensures LatestFirst([k] + list, lastUse[k := clock])
  {
  }

  /** One more eviction from the cold end. */
  lemma EvictedGrows<K, V>(list: seq<K>, index: map<K, Node<V>>, n: nat)
    requires n < |list|
    ensures index - Elements(list[n + 1..]) - {list[n]} == index - Elements(list[n..])
    ensures list[..n + 1][n] == list[n] && list[..n + 1][..n] == list[..n]
  {
  }

  lemma LatestFirstSkip<K>(list: seq<K>, lastUse: map<K, nat>, k: K, clock: nat)
    requires LatestFirst(list, lastUse) && k !in list
    ensures LatestFirst(list, lastUse[k := clock])
  {
  }

  /** How many nodes of the normal list survive the eviction loop. */
  function Kept(normal: nat, locked: nat, maxSize: int): (n: nat)
    ensures n <= normal
    ensures n + locked < maxSize || n == 0
    ensures n < normal ==> n + 1 + locked >= maxSize
  {
    if normal + locked < maxSize then normal
    else if maxSize - 1 - locked < 0 then 0 else maxSize - 1 - locked
  }

  class LRUCache<K(==, !new), V> {
    const maxSize: int
    var lockedCount: int
    var normalCount: int
    var normalList: seq<K>
    var lockedList: seq<K>
    var index: map<K, Node<V>>

    // The moment of each node's last get hit, insertion or unlock.
    ghost var clock: nat
    ghost var lastUse: map<K, nat>

    /** The counters are the lengths of the lists, every indexed node is in exactly the list its
        flag names, once, and the normal list runs from the latest use to the earliest. */
    ghost predicate Valid()
      reads this
    {
      && normalCount == |normalList|
      && lockedCount == |lockedList|
      && Lists(normalList, index, false)
      && Lists(lockedList, index, true)
      && LatestFirst(normalList, lastUse)
      && (forall k :: k in index ==> k in lastUse && lastUse[k] < clock)
    }

    constructor (maxSize: int)
      ensures Valid() && this.maxSize == maxSize && index == map[] && lockedList == [] && normalList == []
    {
      this.maxSize := maxSize;
      normalCount, lockedCount := 0, 0;
      normalList, lockedList := [], [];
      index := map[];
      clock := 0;
      lastUse := map[];
    }

    function Size(): int
      reads this
    {
      normalCount + lockedCount
    }

    /** Returns the value held for key. A hit on an unlocked node makes it the most recent one. */
    method Get(key: K) returns (value: Option<V>)
      requires Valid()
      modifies this
      ensures Valid()
      ensures index == old(index) && lockedList == old(lockedList)
      ensures Size() == old(Size()) && lockedCount == old(lockedCount)
      ensures value == if key in index then Some(index[key].value) else None
      ensures normalList == if key in index && !index[key].isLocked
                            then [key] + Without(old(normalList), key) else old(normalList)
      ensures forall k :: k in index && k != key ==> k in old(lastUse) && lastUse[k] == old(lastUse[k])
      ensures key in index && !index[key].isLocked ==> lastUse[key] == old(clock)
    {
      hide Lists, LatestFirst, Without;
      if key !in index {
        return None;
      }
      if !index[key].isLocked {
        ToFront(normalList, index, key);
        LatestFirstWithout(normalList, lastUse, key);
        LatestFirstInsert(Without(normalList, key), lastUse, key, clock);
        normalList := [key] + Without(normalList, key);
        lastUse, clock := lastUse[key := clock], clock + 1;
      }
      return Some(index[key].value);
    }

    /** Sets the value and the lock of key, making room first when the key is new. */
    method Put(key: K, value: V, isLocked: bool)
      requires Valid()
      modifies this
      ensures Valid()
      ensures key in old(index) ==> index == old(index)[key := Node(value, isLocked)] && Size() == old(Size())
      ensures key !in old(index) ==>
        var n := Kept(|old(normalList)|, |old(lockedList)|, maxSize);
        && index == (old(index) - Elements(old(normalList)[n..]))[key := Node(value, isLocked)]
        && normalList == (if isLocked then [] else [key]) + old(normalList)[..n]
        && lockedList == (if isLocked then [key] else []) + old(lockedList)
      ensures key in old(index) && old(index)[key].isLocked == isLocked ==>
        normalList == old(normalList) && lockedList == old(lockedList)
      ensures key in old(index) && !old(index)[key].isLocked && isLocked ==>
        normalList == Without(old(normalList), key) && lockedList == [key] + old(lockedList)
      ensures key in old(index) && old(index)[key].isLocked && !isLocked ==>
        normalList == [key] + old(normalList) && lockedList == Without(old(lockedList), key)
    {
      hide Lists, LatestFirst, Without;
      if key !in index {
        AddNewNode(key, value, isLocked);
      } else {
        SetLocked(key, isLocked);
        ListsRevalue(normalList, index, key, value, false);
        ListsRevalue(lockedList, index, key, value, true);
        index := index[key := Node(value, isLocked)];
      }
    }

    method AddNewNode(key: K, value: V, isLocked: bool)
      requires Valid() && key !in index
      modifies this
      ensures Valid()
      ensures
        var n := Kept(|old(normalList)|, |old(lockedList)|, maxSize);
        && index == (old(index) - Elements(old(normalList)[n..]))[key := Node(value, isLocked)]
        && normalList == (if isLocked then [] else [key]) + old(normalList)[..n]
        && lockedList == (if isLocked then [key] else []) + old(lockedList)
    {
      hide Lists, LatestFirst;
      EliminateOldObjects();
      ListsInsert(normalList, index, key, value, false, isLocked);
      ListsInsert(lockedList, index, key, value, true, isLocked);
      LatestFirstInsert(normalList, lastUse, key, clock);
      LatestFirstSkip(normalList, lastUse, key, clock);
      index := index[key := Node(value, isLocked)];
      if isLocked {
        assert [] + normalList == normalList;
        lockedList := [key] + lockedList;
        lockedCount := lockedCount + 1;
      } else {
        assert [] + lockedList == lockedList;
        normalList := [key] + normalList;
        normalCount := normalCount + 1;
      }
      lastUse, clock := lastUse[key := clock], clock + 1;
    }

    /** Evicts from the cold end of the normal list until there is room or the list is empty. */
    method EliminateOldObjects()
      requires Valid()
      modifies this
      ensures Valid()
      ensures lockedList == old(lockedList) && clock == old(clock)
      ensures
        var n := Kept(|old(normalList)|, |old(lockedList)|, maxSize);
        && normalList == old(normalList)[..n]
        && index == old(index) - Elements(old(normalList)[n..])
    {
      hide Lists, LatestFirst;
      assert index == old(index) - Elements(old(normalList)[|normalList|..]);
      while Size() >= maxSize && normalCount > 0
        invariant Valid()
        invariant lockedList == old(lockedList) && clock == old(clock)
        invariant Kept(|old(normalList)|, |lockedList|, maxSize) <= |normalList| <= |old(normalList)|
        invariant normalList == old(normalList)[..|normalList|]
        invariant index == old(index) - Elements(old(normalList)[|normalList|..])
        decreases normalCount
      {
        EvictedGrows(old(normalList), old(index), |normalList| - 1);
        ListsMember(normalList, index, false, |normalList| - 1);
        RemoveNode(normalList[|normalList| - 1]);
      }
    }

    /** Drops a node from the index and from its list. */
    method RemoveNode(key: K)
      requires Valid() && key in index
      modifies this
      ensures Valid()
      ensures index == old(index) - {key} && clock == old(clock)
      ensures normalList == if old(index)[key].isLocked then old(normalList) else Without(old(normalList), key)
      ensures lockedList == if old(index)[key].isLocked then Without(old(lockedList), key) else old(lockedList)
      ensures old(normalList) != [] && key == old(normalList)[|old(normalList)| - 1] ==>
        normalList == old(normalList)[..|old(normalList)| - 1]
    {
      hide Lists, LatestFirst;
      ListsRemove(normalList, index, key, false);
      ListsRemove(lockedList, index, key, true);
      if index[key].isLocked {
        lockedCount := lockedCount - 1;
        index := index - {key};
        lockedList := Without(lockedList, key);
      } else {
        LatestFirstWithout(normalList, lastUse, key);
        normalCount := normalCount - 1;
        index := index - {key};
        normalList := Without(normalList, key);
      }
    }

    /** Moves a node to the front of the other list when its lock changes. */
    method SetLocked(key: K, isLocked: bool)
      requires Valid()
      modifies this
      ensures Valid()
      ensures index == if key in old(index) then old(index)[key := old(index)[key].(isLocked := isLocked)] else old(index)
      ensures (key !in index || old(index)[key].isLocked == isLocked) ==>
        normalList == old(normalList) && lockedList == old(lockedList) && lastUse == old(lastUse)
      ensures key in index && old(index)[key].isLocked && !isLocked ==>
        normalList == [key] + old(normalList) && lockedList == Without(old(lockedList), key) && lastUse[key] == old(clock)
      ensures key in index && !old(index)[key].isLocked && isLocked ==>
        normalList == Without(old(normalList), key) && lockedList == [key] + old(lockedList)
      ensures |normalList| + |lockedList| == |old(normalList)| + |old(lockedList)|
    {
      hide Lists, LatestFirst, Without;
      if key in index {
        if isLocked {
          if !index[key].isLocked {
            ListsRelock(normalList, index, key, false, true);
            ListsRelock(lockedList, index, key, true, true);
            LatestFirstWithout(normalList, lastUse, key);
            normalCount := normalCount - 1;
            lockedCount := lockedCount + 1;
            index := index[key := index[key].(isLocked := true)];
            normalList, lockedList := Without(normalList, key), [key] + lockedList;
          }
        } else {
          if index[key].isLocked {
            ListsRelock(normalList, index, key, false, false);
            ListsMembers(normalList, index, false);
            ListsRelock(lockedList, index, key, true, false);
            LatestFirstInsert(normalList, lastUse, key, clock);
            normalCount := normalCount + 1;
            lockedCount := lockedCount - 1;
            index := index[key := index[key].(isLocked := false)];
            normalList, lockedList := [key] + normalList, Without(lockedList, key);
            lastUse, clock := lastUse[key := clock], clock + 1;
          }
        }
      }
    }

    method Clear()
      modifies this
      ensures Valid()
      ensures index == map[] && normalList == [] && lockedList == []
    {
      index := map[];
      normalList, lockedList := [], [];
      normalCount, lockedCount := 0, 0;
    }
  }
}
