/** The cache of system/common/lru.h as it is laid out in memory: a doubly linked
    list of nodes, updated in place, and an index from keys to nodes.  Every
    operation is proved against the recency list of module RecencyList. */
module LruCache {
  import opened Options
  import opened RecencyList

  class Node<K, V> {
    const key: K
    var value: V
    var prev: Node?<K, V>
    var next: Node?<K, V>

    constructor (key: K, value: V)
      ensures this.key == key && this.value == value
    {
      this.key, this.value, prev, next := key, value, null, null;
    }
  }

  class Cache<K(==), V> {
    const capacity: nat
    var head: Node?<K, V>
    var tail: Node?<K, V>
    var index: map<K, Node<K, V>>
    ghost var Repr: set<object>
    ghost var nodes: seq<Node<K, V>>       // the list, in order
    ghost var slots: seq<Entry<K, Node<K, V>>>  // its nodes, each with its key
    ghost var contents: seq<Entry<K, V>>   // its entries: the abstract value of the cache

    /** The list reads `nodes` in order, forwards and backwards. */
    ghost predicate Linked()
      reads `head, `tail, `nodes, nodes`prev, nodes`next
    {
      && (forall i, j :: 0 <= i < j < |nodes| ==> nodes[i] != nodes[j])
      && head == (if nodes == [] then null else nodes[0])
      && tail == (if nodes == [] then null else nodes[|nodes| - 1])
      && (forall i {:trigger nodes[i].prev} :: 0 <= i < |nodes| ==>
            nodes[i].prev == if i == 0 then null else nodes[i - 1])
      && (forall i {:trigger nodes[i].next} :: 0 <= i < |nodes| ==>
            nodes[i].next == if i == |nodes| - 1 then null else nodes[i + 1])
    }

    ghost predicate HoldsContents()
      reads `nodes, `slots, `contents, nodes`value
    {
      && |contents| == |slots| == |nodes|
      && (forall i :: 0 <= i < |nodes| ==> contents[i] == Entry(nodes[i].key, nodes[i].value))
      && (forall i :: 0 <= i < |nodes| ==> slots[i] == Entry(nodes[i].key, nodes[i]))
    }

    /** The index finds every node of the list under its key, and nothing else. */
    ghost predicate Indexed()
      reads `slots, `index
    {
      DistinctKeys(slots) && index == AsMap(slots)
    }

    ghost predicate Valid()
      reads this, Repr
      ensures Valid() ==> this in Repr
    {
      && this in Repr && (forall i :: 0 <= i < |nodes| ==> nodes[i] in Repr)
      && 0 < capacity && |nodes| <= capacity && Linked() && HoldsContents() && Indexed()
    }

    constructor (capacity: nat)
      requires capacity > 0
      ensures Valid() && contents == [] && this.capacity == capacity && fresh(Repr)
    {
      this.capacity := capacity;
      Repr := {this};
      head, tail, index, nodes, slots, contents := null, null, map[], [], [], [];
    }

    lemma FoundAt(k: K)
      requires HoldsContents() && Indexed()
      ensures k in index <==> Has(contents, k)
      ensures Position(contents, k) == Position(slots, k)
      ensures k in index ==> nodes[Position(contents, k)] == index[k]
    {
      AsMapLookup(slots, k);
      SamePosition(slots, contents, k);
    }

    lemma KeysAreDistinct()
      requires HoldsContents() && Indexed()
      ensures DistinctKeys(contents)
    {
      forall i, j | 0 <= i < j < |contents| ensures contents[i].key != contents[j].key {
        assert slots[i].key != slots[j].key;
      }
    }

    // ----- the list primitives -----

    /** The pointer updates that take the node at position `i` out of the list. */
    method Detach(n: Node<K, V>, ghost i: nat)
      requires Linked() && i < |nodes| && nodes[i] == n
      modifies `head, `tail, `nodes, nodes`prev, nodes`next
      ensures Linked() && nodes == old(nodes[..i] + nodes[i + 1..])
    {
      assert i > 0 ==> n.prev == nodes[i - 1];
      assert i < |nodes| - 1 ==> n.next == nodes[i + 1];
      if n.prev == null { head := n.next; } else { n.prev.next := n.next; }
      if n.next == null { tail := n.prev; } else { n.next.prev := n.prev; }
      ghost var before := nodes;
      nodes := before[..i] + before[i + 1..];
      assert forall j :: 0 <= j < |nodes| ==> nodes[j] == before[if j < i then j else j + 1];
    }

    method Unlink(n: Node<K, V>, ghost i: nat)
      requires Linked() && HoldsContents() && i < |nodes| && nodes[i] == n
      modifies `head, `tail, `nodes, `slots, `contents, nodes`prev, nodes`next
      ensures Linked() && HoldsContents()
      ensures nodes == old(nodes[..i] + nodes[i + 1..])
      ensures slots == old(slots[..i] + slots[i + 1..])
      ensures contents == old(contents[..i] + contents[i + 1..])
    {
      Detach(n, i);
      slots := slots[..i] + slots[i + 1..];
      contents := contents[..i] + contents[i + 1..];
    }

    method PushFront(n: Node<K, V>)
      requires Linked() && HoldsContents() && n !in nodes
      modifies `head, `tail, `nodes, `slots, `contents, n`prev, n`next, nodes`prev
      ensures Linked() && HoldsContents()
      ensures nodes == [n] + old(nodes) && slots == [Entry(n.key, n)] + old(slots)
      ensures contents == [Entry(n.key, n.value)] + old(contents)
    {
      n.prev := null;
      n.next := head;
      if head == null { tail := n; } else { head.prev := n; }
      head := n;
      nodes := [n] + nodes;
      slots := [Entry(n.key, n)] + slots;
      contents := [Entry(n.key, n.value)] + contents;
    }

    /** Moves the node at position `i` to the head, as std::list::splice does. */
    method Splice(n: Node<K, V>, ghost i: nat)
      requires Linked() && HoldsContents() && i < |nodes| && nodes[i] == n
      modifies `head, `tail, `nodes, `slots, `contents, nodes`prev, nodes`next
      ensures Linked() && HoldsContents()
      ensures nodes == old([nodes[i]] + nodes[..i] + nodes[i + 1..])
      ensures slots == old([slots[i]] + slots[..i] + slots[i + 1..])
      ensures contents == old([contents[i]] + contents[..i] + contents[i + 1..])
    {
      assert slots[i] == Entry(n.key, n) && contents[i] == Entry(n.key, n.value);
      Unlink(n, i);
      PushFront(n);
    }

    // ----- the public operations -----

    method Clear()
      requires Valid()
      modifies Repr
      ensures Valid() && contents == [] && Repr == old(Repr)
    {
      index := map[];
      head, tail, nodes, slots, contents := null, null, [], [], [];
    }

    method Find(k: K) returns (n: Node?<K, V>)
      requires Valid()
      modifies Repr
      ensures Valid() && Repr == old(Repr)
      ensures contents == Touch(old(contents), k)
      ensures if Has(old(contents), k)
              then nodes != [] && n == nodes[0] && Lookup(old(contents), k) == Some(n.value)
              else n == null
    {
      FoundAt(k);
      if k in index {
        n := index[k];
        MoveToFront(n, Position(contents, k));
      } else {
        n := null;
      }
    }

    method MoveToFront(n: Node<K, V>, ghost i: nat)
      requires Valid() && i < |nodes| && nodes[i] == n
      modifies `head, `tail, `nodes, `slots, `contents, nodes`prev, nodes`next
      ensures Valid()
      ensures nodes != [] && nodes[0] == n
      ensures contents == old([contents[i]] + contents[..i] + contents[i + 1..])
    {
      PositionAt(slots, i);
      TouchKeepsMap(slots, n.key);
      Splice(n, i);
    }

    method Get(k: K) returns (r: Option<V>)
      requires Valid()
      modifies Repr
      ensures Valid() && Repr == old(Repr)
      ensures contents == Touch(old(contents), k) && r == Lookup(old(contents), k)
    {
      var n := Find(k);
      r := if n == null then None else Some(n.value);
    }

    method HasKey(k: K) returns (b: bool)
      requires Valid()
      modifies Repr
      ensures Valid() && Repr == old(Repr)
      ensures contents == Touch(old(contents), k) && b == Has(old(contents), k)
    {
      var n := Find(k);
      b := n != null;
    }

    method Put(k: K, v: V) returns (evicted: Option<Entry<K, V>>)
      requires Valid()
      modifies Repr
      ensures Valid() && fresh(Repr - old(Repr))
      ensures contents == RecencyList.Put(old(contents), capacity, k, v)
      ensures evicted == Evicted(old(contents), capacity, k)
    {
      TouchTail(contents, k);
      var n := Find(k);
      if n != null {
        Overwrite(n, v);
        evicted := None;
      } else {
        evicted := Insert(k, v);
      }
    }

    /** The miss inside Put: the tail goes if the cache is full, the new node comes first. */
    method Insert(k: K, v: V) returns (evicted: Option<Entry<K, V>>)
      requires Valid() && !Has(contents, k)
      modifies Repr
      ensures Valid() && fresh(Repr - old(Repr))
      ensures var full := |old(contents)| == capacity;
        && contents == [Entry(k, v)] + old(if full then contents[..|contents| - 1] else contents)
        && evicted == if full then Some(old(contents)[|old(contents)| - 1]) else None
    {
      evicted := None;
      MapSize(slots);
      FoundAt(k);
      if |index| == capacity {
        evicted := DropLast();
      }
      EmplaceFront(k, v);
    }

    /** The hit inside Put: the node just moved to the head takes the new value. */
    method Overwrite(n: Node<K, V>, v: V)
      requires Valid() && nodes != [] && n == nodes[0]
      modifies `contents, n`value
      ensures Valid() && contents == [Entry(n.key, v)] + old(contents)[1..]
    {
      n.value := v;
      contents := [Entry(n.key, v)] + contents[1..];
    }

    method DropLast() returns (evicted: Option<Entry<K, V>>)
      requires Valid() && nodes != []
      modifies Repr
      ensures Valid() && Repr == old(Repr) && |nodes| == |old(nodes)| - 1
      ensures contents == old(contents)[..|old(nodes)| - 1]
      ensures evicted == Some(old(contents)[|old(nodes)| - 1])
      ensures index.Keys <= old(index.Keys)
    {
      var last := tail;
      evicted := Some(Entry(last.key, last.value));
      Erase(last, |nodes| - 1);
    }

    /** Takes the node at position `i` out of the list and out of the index. */
    method Erase(n: Node<K, V>, ghost i: nat)
      requires Valid() && i < |nodes| && nodes[i] == n
      modifies `head, `tail, `nodes, `slots, `contents, `index, nodes`prev, nodes`next
      ensures Valid() && |nodes| == |old(nodes)| - 1
      ensures contents == old(contents[..i] + contents[i + 1..]) && index == old(index) - {n.key}
    {
      ErasedAsMap(slots, i);
      Unlink(n, i);
      index := index - {n.key};
    }

    method EmplaceFront(k: K, v: V)
      requires Valid() && k !in index && |nodes| < capacity
      modifies Repr
      ensures Valid() && fresh(Repr - old(Repr))
      ensures contents == [Entry(k, v)] + old(contents)
    {
      var n := new Node(k, v);
      Link(n);
    }

    /** Puts a node that is not in the list yet at its head and into the index. */
    method Link(n: Node<K, V>)
      requires Valid() && n !in Repr && n.key !in index && |nodes| < capacity
      modifies `head, `tail, `nodes, `slots, `contents, `index, `Repr, n`prev, n`next, nodes`prev
      ensures Valid() && Repr == old(Repr) + {n}
      ensures contents == [Entry(n.key, n.value)] + old(contents)
    {
      AsMapLookup(slots, n.key);
      ConsAsMap(Entry(n.key, n), slots);
      PushFront(n);
      Repr := Repr + {n};
      index := index[n.key := n];
    }

    method Remove(k: K) returns (removed: bool)
      requires Valid()
      modifies Repr
      ensures Valid() && Repr == old(Repr)
      ensures contents == Without(old(contents), k) && removed == Has(old(contents), k)
    {
      FoundAt(k);
      if k !in index {
        return false;
      }
      Erase(index[k], Position(contents, k));
      return true;
    }

    method Size() returns (n: nat)
      requires Valid()
      ensures n == |contents|
    {
      MapSize(slots);
      n := |index|;
    }
  }
}
