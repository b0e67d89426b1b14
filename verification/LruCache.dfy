/** The cache object: list nodes linked in recency order and an index from keys to nodes. */
module LruCacheClass {
  import opened Text
  import opened LruSpec

  class Node<V> {
    const key: string
    var value: V
    var insertedAt: int

    constructor (key: string, value: V, insertedAt: int)
      ensures this.key == key && this.value == value && this.insertedAt == insertedAt
    {
      this.key, this.value, this.insertedAt := key, value, insertedAt;
    }

    function Stored(): Entry<V>
      reads this
    {
      Entry(key, value, insertedAt)
    }
  }

  // ----- List and index, which the fixed keys of the nodes tie together

  predicate OneNodeEach<V>(list: seq<Node<V>>) {
    forall i, j :: 0 <= i < j < |list| ==> list[i].key != list[j].key
  }

  predicate AllIndexed<V>(list: seq<Node<V>>, index: map<string, Node<V>>) {
    forall i :: 0 <= i < |list| ==> list[i].key in index && index[list[i].key] == list[i]
  }

  predicate OnlyListed<V>(list: seq<Node<V>>, index: map<string, Node<V>>) {
    forall k :: k in index ==> index[k] in list && index[k].key == k
  }

  /** One node for each key, and the index finds exactly the nodes of the list. */
  predicate Linked<V>(list: seq<Node<V>>, index: map<string, Node<V>>) {
    OneNodeEach(list) && AllIndexed(list, index) && OnlyListed(list, index)
  }

  function Cut<V>(list: seq<Node<V>>, i: nat): seq<Node<V>>
    requires i < |list|
  {
    list[..i] + list[i + 1..]
  }

  lemma CutIndex<V>(list: seq<Node<V>>, i: nat)
    requires i < |list|
    ensures |Cut(list, i)| == |list| - 1
    ensures forall j :: 0 <= j < |list| - 1 ==> Cut(list, i)[j] == if j < i then list[j] else list[j + 1]
    ensures forall n :: n in list <==> n == list[i] || n in Cut(list, i)
  {
  }

  lemma LinkedErase<V>(list: seq<Node<V>>, index: map<string, Node<V>>, i: nat)
    requires Linked(list, index) && i < |list|
    ensures Linked(Cut(list, i), index - {list[i].key})
  {
  }

  lemma LinkedPush<V>(list: seq<Node<V>>, index: map<string, Node<V>>, node: Node<V>)
    requires Linked(list, index) && node.key !in index
    ensures Linked([node] + list, index[node.key := node])
  {
  }

  lemma LinkedSplice<V>(list: seq<Node<V>>, index: map<string, Node<V>>, i: nat)
    requires Linked(list, index) && i < |list|
    ensures Linked([list[i]] + Cut(list, i), index)
  {
  }

  lemma {:induction false} IndexSize<V>(list: seq<Node<V>>, index: map<string, Node<V>>)
    requires Linked(list, index)
    ensures |index| == |list|
  {
    if list == [] {
      assert index == map[];
    } else {
      hide Linked, Cut;
      CutIndex(list, 0);
      LinkedErase(list, index, 0);
      IndexSize(Cut(list, 0), index - {list[0].key});
      FirstIsIndexed(list, index);
      assert index.Keys == (index - {list[0].key}).Keys + {list[0].key};
    }
  }

  lemma FirstIsIndexed<V>(list: seq<Node<V>>, index: map<string, Node<V>>)
    requires Linked(list, index) && list != []
    ensures list[0].key in index
  {
  }

  function Position<V>(list: seq<Node<V>>, node: Node<V>): (i: nat)
    requires node in list
    ensures i < |list| && list[i] == node
  {
    if list[0] == node then 0 else 1 + Position(list[1..], node)
  }

  function Stored<V>(list: seq<Node<V>>): (s: seq<Entry<V>>)
    reads list
    ensures |s| == |list|
    ensures forall i :: 0 <= i < |list| ==> s[i] == list[i].Stored()
  {
    if list == [] then [] else [list[0].Stored()] + Stored(list[1..])
  }

  lemma {:induction false} StoredAppend<V>(a: seq<Node<V>>, b: seq<Node<V>>)
    ensures Stored(a + b) == Stored(a) + Stored(b)
  {
  }

  lemma StoredParts<V>(list: seq<Node<V>>, i: nat)
    requires i < |list|
    ensures Stored(Cut(list, i)) == Stored(list)[..i] + Stored(list)[i + 1..]
    ensures Stored([list[i]] + Cut(list, i)) == [Stored(list)[i]] + (Stored(list)[..i] + Stored(list)[i + 1..])
  {
    hide Stored;
    StoredAppend(list[..i], list[i + 1..]);
    StoredSplit(list, i);
    StoredSplit(list, i + 1);
    FrontStored(list[i], Cut(list, i));
  }

  lemma StoredSplit<V>(list: seq<Node<V>>, i: nat)
    requires i <= |list|
    ensures Stored(list)[..i] == Stored(list[..i]) && Stored(list)[i..] == Stored(list[i..])
  {
    hide Stored;
    StoredAppend(list[..i], list[i..]);
    assert list == list[..i] + list[i..];
  }

  lemma FrontStored<V>(node: Node<V>, list: seq<Node<V>>)
    ensures Stored([node] + list) == [node.Stored()] + Stored(list)
  {
  }

  lemma KeysAgree<V>(list: seq<Node<V>>, index: map<string, Node<V>>, key: string)
    requires Linked(list, index)
    ensures DistinctKeys(Stored(list))
    ensures key in index <==> HasKey(Stored(list), key)
  {
  }

  class LRUCache<V> {
    const capacity: nat
    const ttl: int
    var list: seq<Node<V>>
    var index: map<string, Node<V>>

    /** List and index are in bijection and the capacity is kept. */
    ghost predicate Valid()
      reads this
    {
      Linked(list, index) && |list| <= capacity
    }

    ghost function Contents(): seq<Entry<V>>
      reads this, list
    {
      Stored(list)
    }

    constructor (capacity: nat, ttl: int)
      ensures Valid() && Contents() == [] && this.capacity == capacity && this.ttl == ttl
    {
      this.capacity, this.ttl := capacity, ttl;
      list, index := [], map[];
    }

    method Get(key: string, now: int) returns (r: Option<V>)
      requires Valid()
      modifies this
      ensures Valid()
      ensures Answer(Contents(), r) == old(LruSpec.Get(Contents(), key, now, ttl))
      ensures r == if key in old(index) && (ttl <= 0 || now - old(index[key].insertedAt) <= ttl)
                   then Some(old(index[key].value)) else None
    {
      hide Remove, Lookup, HasKey, Linked, LruSpec.DistinctKeys, Cut, Stored;
      KeysAgree(list, index, key);
      if key !in index { return None; }
      var node := index[key];
      IndexedIsListed(list, index, key);
      var i := Position(list, node);
      ghost var s := Contents();
      RemoveAt(s, i);
      StoredParts(list, i);
      CutIndex(list, i);
      if ttl > 0 {
        var age := now - node.insertedAt;
        if age > ttl {
          LinkedErase(list, index, i);
          list, index := Cut(list, i), index - {key};
          return None;
        }
      }
      LinkedSplice(list, index, i);
      list := [node] + Cut(list, i);
      return Some(node.value);
    }

    method Put(key: string, value: V, now: int)
      requires Valid()
      modifies this, list
      ensures Valid()
      ensures Contents() == old(LruSpec.Put(Contents(), key, value, now, capacity))
    {
      hide Remove, HasKey, Linked, Stored;
      KeysAgree(list, index, key);
      if key in index {
        Refresh(key, value, now);
      } else {
        Insert(key, value, now);
      }
    }

    method Refresh(key: string, value: V, now: int)
      requires Valid() && key in index
      modifies this, list
      ensures Valid()
      ensures Contents() == [Entry(key, value, now)] + old(Remove(Contents(), key))
    {
      hide Remove, Lookup, HasKey, Linked, LruSpec.DistinctKeys, Cut, Stored;
      KeysAgree(list, index, key);
      IndexedIsListed(list, index, key);
      var node := index[key];
      var i := Position(list, node);
      ghost var s := Contents();
      RemoveAt(s, i);
      Rewrite(i, value, now);
      ghost var s' := Contents();
      assert s'[..i] == s[..i] && s'[i + 1..] == s[i + 1..];
      StoredParts(list, i);
      CutIndex(list, i);
      LinkedSplice(list, index, i);
      list := [node] + Cut(list, i);
    }

    /** Stores a new value and time in the node at position `i`, in place. */
    method Rewrite(i: nat, value: V, now: int)
      requires Linked(list, index) && i < |list|
      modifies list[i]
      ensures Stored(list) == old(Stored(list))[i := Entry(list[i].key, value, now)]
    {
      hide Stored;
      assert forall j :: 0 <= j < |list| && j != i ==> list[j] != list[i];
      list[i].value := value;
      list[i].insertedAt := now;
    }

    method Insert(key: string, value: V, now: int)
      requires Valid() && key !in index
      modifies this
      ensures Valid()
      ensures Contents() == Evict([Entry(key, value, now)] + old(Contents()), capacity)
    {
      hide Linked, Cut, Stored;
      ghost var s := Contents();
      var node := new Node(key, value, now);
      LinkedPush(list, index, node);
      FrontStored(node, list);
      list, index := [node] + list, index[key := node];
      IndexSize(list, index);
      if |index| > capacity {
        var n := |list| - 1;
        var lru := list[n];
        LinkedErase(list, index, n);
        CutLast(list);
        StoredSplit(list, n);
        index := index - {lru.key};
        list := list[..n];
      }
    }

    method Invalidate(key: string)
      requires Valid()
      modifies this
      ensures Valid()
      ensures Contents() == old(Remove(Contents(), key))
    {
      hide Remove, Lookup, HasKey, Linked, LruSpec.DistinctKeys, Cut, Stored;
      KeysAgree(list, index, key);
      if key in index {
        IndexedIsListed(list, index, key);
        var i := Position(list, index[key]);
        RemoveAt(Contents(), i);
        StoredParts(list, i);
        CutIndex(list, i);
        LinkedErase(list, index, i);
        list, index := Cut(list, i), index - {key};
      } else {
        RemoveAbsent(Contents(), key);
      }
    }

    method Clear()
      modifies this
      ensures Valid() && Contents() == []
    {
      list, index := [], map[];
    }

    method Size() returns (n: nat)
      requires Valid()
      ensures n == |Contents()| <= capacity
    {
      n := |index|;
      IndexSize(list, index);
    }
  }

  lemma IndexedIsListed<V>(list: seq<Node<V>>, index: map<string, Node<V>>, key: string)
    requires Linked(list, index) && key in index
    ensures index[key] in list && index[key].key == key
  {
  }

  lemma CutLast<V>(list: seq<Node<V>>)
    requires list != []
    ensures Cut(list, |list| - 1) == list[..|list| - 1]
  {
  }
}
