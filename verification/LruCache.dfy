/**
 The cache as core/5thdlru_cache.h builds it: a list of nodes and a hash map from
 keys to positions (nodes) of that list.
 */
module LruCache {
  import opened Prelude
  import opened RecencyList

  /** One element of the std::list; the map's iterators are references to it. */
  class Node<K(!new), V(!new)> {
    const key: K
    const value: V

    constructor (key: K, value: V)
      ensures this.key == key && this.value == value
    {
      this.key := key;
      this.value := value;
    }
  }

  /** std::list::erase: unlink one node, leave the others in place. */
  function Erase<K(!new), V(!new)>(items: seq<Node<K, V>>, n: Node<K, V>): seq<Node<K, V>> {
    if items == [] then []
    else if items[0] == n then items[1..]
    else [items[0]] + Erase(items[1..], n)
  }

  function Entries<K(!new), V(!new)>(items: seq<Node<K, V>>): seq<Entry<K, V>> {
    seq(|items|, i requires 0 <= i < |items| => Entry(items[i].key, items[i].value))
  }

  ghost predicate OneNodePerKey<K(!new), V(!new)>(items: seq<Node<K, V>>) {
    forall i, j :: 0 <= i < j < |items| ==> items[i].key != items[j].key
  }

  ghost function KeySet<K(!new), V(!new)>(items: seq<Node<K, V>>): set<K> {
    set i | 0 <= i < |items| :: items[i].key
  }

  /** Erasing the one node of a key is removing that key's entry. */
  lemma {:induction false} EraseIsRemove<K(!new), V(!new)>(items: seq<Node<K, V>>, n: Node<K, V>)
    requires OneNodePerKey(items) && n in items
    ensures Entries(Erase(items, n)) == Remove(Entries(items), n.key)
    ensures forall m :: m in Erase(items, n) <==> m in items && m != n
    ensures OneNodePerKey(Erase(items, n))
  {
    var rest := items[1..];
    var es := Entries(items);
    assert es[1..] == Entries(rest);
    assert items == [items[0]] + rest;
    if items[0] == n {
      assert !HasKey(Entries(rest), n.key);
      RemoveMissing(Entries(rest), n.key);
    } else {
      EraseIsRemove(rest, n);
      var i :| 0 <= i < |items| && items[i] == n;
      assert items[0].key != n.key;
      var tail := Erase(rest, n);
      assert Entries([items[0]] + tail) == [es[0]] + Entries(tail);
      forall j | 0 <= j < |tail| ensures tail[j].key != items[0].key {
        assert tail[j] in rest;
      }
    }
  }

  /** With one node per key, the list is as long as its key set is large. */
  lemma {:induction false} KeySetSize<K(!new), V(!new)>(items: seq<Node<K, V>>)
    requires OneNodePerKey(items)
    ensures |KeySet(items)| == |items|
  {
    if items != [] {
      var rest := items[1..];
      KeySetSize(rest);
      assert KeySet(items) == {items[0].key} + KeySet(rest) by {
        assert forall i :: 0 <= i < |rest| ==> rest[i] == items[i + 1];
        forall i | 0 <= i < |items| ensures items[i].key in {items[0].key} + KeySet(rest) {
          if i > 0 { assert rest[i - 1].key in KeySet(rest); }
        }
        forall i | 0 <= i < |rest| ensures rest[i].key in KeySet(items) {
          assert items[i + 1].key in KeySet(items);
        }
      }
    }
  }

  lemma EntriesShape<K(!new), V(!new)>(items: seq<Node<K, V>>)
    ensures |Entries(items)| == |items|
    ensures OneNodePerKey(items) <==> Distinct(Entries(items))
    ensures forall k :: HasKey(Entries(items), k) <==> k in KeySet(items)
  {
    var es := Entries(items);
    forall k ensures HasKey(es, k) <==> k in KeySet(items) {
      if k in KeySet(items) {
        var i :| 0 <= i < |items| && items[i].key == k;
        assert es[i].key == k;
      }
    }
    assert forall i :: 0 <= i < |items| ==> es[i].key == items[i].key;
  }

  /** The map's keys are exactly the list's keys, and each leads to its own node. */
  ghost predicate Linked<K(!new), V(!new)>(items: seq<Node<K, V>>, index: map<K, Node<K, V>>) {
    && OneNodePerKey(items)
    && index.Keys == KeySet(items)
    && (forall k :: k in index ==> index[k] in items && index[k].key == k)
  }

  /** Midway through an update: linked, but for one key that has no node. */
  ghost predicate LinkedBut<K(!new), V(!new)>(items: seq<Node<K, V>>, index: map<K, Node<K, V>>, key: K) {
    && OneNodePerKey(items)
    && key !in KeySet(items)
    && index.Keys - {key} == KeySet(items)
    && (forall k :: k in index && k != key ==> index[k] in items && index[k].key == k)
  }

  lemma LinkedFacts<K(!new), V(!new)>(items: seq<Node<K, V>>, index: map<K, Node<K, V>>, key: K)
    requires Linked(items, index)
    ensures |index| == |items| == |Entries(items)|
    ensures Distinct(Entries(items))
    ensures HasKey(Entries(items), key) <==> key in index
    ensures key !in index ==> LinkedBut(items, index, key)
  {
    KeySetSize(items);
    assert |index| == |index.Keys|;
    EntriesShape(items);
  }

  lemma EraseUnlinks<K(!new), V(!new)>(items: seq<Node<K, V>>, index: map<K, Node<K, V>>, key: K)
    requires Linked(items, index) && key in index
    ensures LinkedBut(Erase(items, index[key]), index, key)
    ensures Entries(Erase(items, index[key])) == Remove(Entries(items), key)
  {
    var rest := Erase(items, index[key]);
    EraseIsRemove(items, index[key]);
    forall k ensures k in KeySet(rest) <==> k in index && k != key {
      if k in KeySet(rest) {
        var i :| 0 <= i < |rest| && rest[i].key == k;
        assert rest[i] in items;
        var j :| 0 <= j < |items| && items[j] == rest[i];
        assert items[j].key in KeySet(items);
      }
      if k in index && k != key {
        assert index[k] in rest;
        var i :| 0 <= i < |rest| && rest[i] == index[k];
        assert rest[i].key in KeySet(rest);
      }
    }
  }

  lemma DropLastUnlinks<K(!new), V(!new)>(items: seq<Node<K, V>>, index: map<K, Node<K, V>>, key: K)
    requires Linked(items, index) && key !in index && items != []
    ensures LinkedBut(items[..|items| - 1], index - {items[|items| - 1].key}, key)
    ensures Entries(items[..|items| - 1]) == Entries(items)[..|items| - 1]
  {
    var last := items[|items| - 1];
    var rest := items[..|items| - 1];
    forall k ensures k in KeySet(rest) <==> k in index && k != last.key {
      if k in KeySet(rest) {
        var i :| 0 <= i < |rest| && rest[i].key == k;
        assert items[i].key in KeySet(items);
      }
      if k in index && k != last.key {
        var i :| 0 <= i < |items| && items[i] == index[k];
        assert rest[i].key in KeySet(rest);
      }
    }
    forall k | k in index && k != last.key ensures index[k] in rest {
      var i :| 0 <= i < |items| && items[i] == index[k];
      assert rest[i] == index[k];
    }
  }

  lemma FrontRelinks<K(!new), V(!new)>(items: seq<Node<K, V>>, index: map<K, Node<K, V>>, node: Node<K, V>)
    requires LinkedBut(items, index, node.key)
    ensures Linked([node] + items, index[node.key := node])
    ensures Entries([node] + items) == [Entry(node.key, node.value)] + Entries(items)
  {
    var all := [node] + items;
    assert forall i :: 0 <= i < |items| ==> all[i + 1] == items[i];
    FrontKey(items, node);
    assert OneNodePerKey(all) by {
      forall i | 0 <= i < |items| ensures items[i].key != node.key {
        assert items[i].key in KeySet(items);
      }
    }
  }

  lemma FrontKey<K(!new), V(!new)>(items: seq<Node<K, V>>, node: Node<K, V>)
    ensures KeySet([node] + items) == {node.key} + KeySet(items)
  {
    var all := [node] + items;
    forall i | 0 <= i < |items| ensures items[i].key in KeySet(all) {
      assert all[i + 1].key in KeySet(all);
    }
    assert all[0].key in KeySet(all);
  }

  class LruCache<K(==, !new), V(!new)> {
    var items: seq<Node<K, V>>
    var index: map<K, Node<K, V>>
    const maxSize: nat

    ghost predicate Valid()
      reads this
    {
      Linked(items, index) && |items| <= maxSize < 0x1_0000
    }

    /** The recency list this object stands for. */
    ghost function Contents(): seq<Entry<K, V>>
      reads this
    {
      Entries(items)
    }

    constructor (maxSize: nat)
      requires maxSize < 0x1_0000
      ensures Valid() && Contents() == [] && this.maxSize == maxSize
    {
      this.maxSize := maxSize;
      items := [];
      index := map[];
    }

    /**
     The first half of a push: drop the key's old node, or else evict from the back when
     full. With maxSize 0 the code would take the last element of an empty list.
     */
    method MakeRoom(key: K)
      requires Valid() && maxSize >= 1
      modifies this
      ensures LinkedBut(items, index, key) && |items| < maxSize < 0x1_0000
      ensures Contents() == Rest(maxSize, old(Contents()), key)
    {
      LinkedFacts(items, index, key);
      RestCases(maxSize, Contents(), key);
      if key in index {
        EraseUnlinks(items, index, key);
        var others := Erase(items, index[key]);
        assert |others| == |Entries(others)|;
        items := others;
        return;
      }
      if |index| >= maxSize {
        DropLastUnlinks(items, index, key);
        var last := items[|items| - 1];
        var others := items[..|items| - 1];
        var lookups := index - {last.key};
        assert LinkedBut(others, lookups, key);
        items, index := others, lookups;
        return;
      }
    }

    method Push(key: K, value: V)
      requires Valid() && maxSize >= 1
      modifies this
      ensures Valid()
      ensures Contents() == RecencyList.Push(maxSize, old(Contents()), key, value)
    {
      PushIsFront(maxSize, Contents(), key, value);
      MakeRoom(key);
      var node := new Node(key, value);
      FrontRelinks(items, index, node);
      items := [node] + items;
      index := index[key := node];
    }

    method Get(key: K) returns (value: Option<V>)
      requires Valid()
      modifies this
      ensures Valid()
      ensures value == Lookup(old(Contents()), key)
      ensures Contents() == Touch(old(Contents()), key)
    {
      EntriesShape(items);
      LookupFacts(Contents(), key);
      if key !in index {
        return None;
      }
      var node := index[key];
      ghost var i :| 0 <= i < |items| && items[i] == node;
      assert Contents()[i] == Entry(key, node.value);
      RemoveFacts(Contents(), key);
      EraseUnlinks(items, index, key);
      FrontRelinks(Erase(items, node), index, node);
      // std::list::splice relinks the same node, so the map entry stays as it is.
      items := [node] + Erase(items, node);
      assert index[key := node] == index;
      return Some(node.value);
    }
  }
}
