/** The doubly linked lists of fcache/fcache_list.c, with node count and size total kept in the list head.

    The prev link of the first node is never read, and it is not reset when a node becomes the first.
 */
module FcacheList {
  import opened Options
  import opened FcacheSpec

  const POINTER_BYTES: nat := 8

  /** fcache_list_set_nodekey copies `keySize` + 1 bytes of the key at most. */
  function StoredKey(key: Key, keySize: nat): Key {
    if |key| <= keySize then key else key[..keySize + 1]
  }

  /** The bytes fcache_list_make_node leaves for a key. */
  function KeyRoom(keySize: nat): nat {
    POINTER_BYTES + (if keySize > POINTER_BYTES then keySize - POINTER_BYTES else 0) + 1
  }

  /** A zero byte follows the stored key inside the node. */
  predicate Terminates(key: Key, keySize: nat) {
    |StoredKey(key, keySize)| < KeyRoom(keySize)
  }

  /** The node comes to hold the key itself, and one the index takes. */
  predicate KeyFits(key: Key, keySize: nat) {
    key != "" && StoredKey(key, keySize) == key && Terminates(key, keySize)
  }

  /** That is so exactly if the key is not empty and at most `keySize` long, or one longer and short. */
  lemma KeyFitsIff(key: Key, keySize: nat)
    ensures KeyFits(key, keySize) <==>
              0 < |key| && (|key| <= keySize || (|key| == keySize + 1 && |key| <= POINTER_BYTES))
  {
  }

  class Node {
    var prev: Node?
    var next: Node?
    var owner: FcList?
    var dataSize: nat
    const key: Key
    const terminated: bool
    var data: Option<Data>

    /** fcache_list_make_node, then the key and data stored in it. */
    constructor (key: Key, keySize: nat, data: Option<Data>)
      ensures this.key == StoredKey(key, keySize) && terminated == Terminates(key, keySize)
      ensures this.data == data && owner == null
    {
      this.key, terminated, this.data := StoredKey(key, keySize), Terminates(key, keySize), data;
      prev, next, owner, dataSize := null, null, null, 0;
    }

    /** Reading the node's key yields `k`. */
    predicate IsFor(k: Key) {
      terminated && key == k
    }

    function AsEntry(): Entry
      reads this
    {
      Entry(key, data, dataSize)
    }
  }

  class FcList {
    var head: Node?
    var tail: Node?
    var size: nat
    var totalDataSize: nat
    ghost var nodes: seq<Node>
    ghost var entries: seq<Entry>

    /** The links run through `nodes` in order, and the nodes carry `entries`. */
    ghost predicate Linked()
      reads this, nodes
    {
      && |entries| == |nodes|
      && (forall i :: 0 <= i < |nodes| ==> nodes[i].owner == this && nodes[i].AsEntry() == entries[i])
      && (forall i, j :: 0 <= i < j < |nodes| ==> nodes[i] != nodes[j])
      && (nodes == [] ==> head == null && tail == null)
      && (nodes != [] ==> head == nodes[0] && tail == nodes[|nodes| - 1] && nodes[|nodes| - 1].next == null)
      && (forall i {:trigger nodes[i].next} :: 0 <= i < |nodes| - 1 ==> nodes[i].next == nodes[i + 1])
      && (forall i {:trigger nodes[i].prev} :: 0 < i < |nodes| ==> nodes[i].prev == nodes[i - 1])
    }

    ghost predicate Valid()
      reads this, nodes
    {
      Linked() && size == |nodes| == |entries| && totalDataSize == Sum(entries)
    }

    constructor ()
      ensures Valid() && nodes == [] && entries == []
    {
      head, tail, size, totalDataSize, nodes, entries := null, null, 0, 0, [], [];
    }

    predicate Empty()
      reads this
    {
      tail == null && head == tail && size == 0
    }

    method Push(node: Node, dataSize: nat)
      requires Valid() && node !in nodes
      modifies this, node, nodes
      ensures Valid() && nodes == old(nodes) + [node]
      ensures node.data == old(node.data)
      ensures entries == old(entries) + [Entry(node.key, node.data, dataSize)]
    {
      hide Sum;
      ghost var e := Entry(node.key, node.data, dataSize);
      SumAppend(entries, [e]);
      SumOne(e);
      Link(node, dataSize);
      size := size + 1;
      totalDataSize := totalDataSize + node.dataSize;
    }

    /** The pointer part of a push. */
    method Link(node: Node, dataSize: nat)
      requires Linked() && (size == 0 <==> nodes == []) && node !in nodes
      modifies this`head, this`tail, this`nodes, this`entries, node, nodes
      ensures Linked() && nodes == old(nodes) + [node]
      ensures node.AsEntry() == Entry(node.key, old(node.data), dataSize)
      ensures entries == old(entries) + [node.AsEntry()]
    {
      hide Sum, FcList.Chained, FcList.LinkedPast;
      ghost var was, es := nodes, entries;
      assert forall i :: 0 <= i < |was| ==> was[i] != node;
      node.next := null;
      node.prev := tail;
      node.owner := this;
      node.dataSize := dataSize;
      if Empty() {
        head, tail := node, node;
      } else {
        tail.next := node;
        tail := node;
      }
      nodes, entries := was + [node], es + [node.AsEntry()];
      assert nodes[|was|] == node && entries[|es|] == node.AsEntry();
      assert forall i :: 0 <= i < |was| ==> nodes[i] == was[i] && entries[i] == es[i] && was[i].AsEntry() == es[i];
    }

    method Pop() returns (r: Node?)
      requires Valid()
      modifies this, nodes
      ensures Valid()
      ensures r == null <==> old(nodes) == []
      ensures r == null ==> nodes == old(nodes) && entries == old(entries)
      ensures r != null ==>
        && r == old(nodes)[0] && nodes == old(nodes)[1..] && entries == old(entries)[1..]
        && r.owner == null && r.AsEntry() == old(entries)[0]
    {
      hide Sum;
      if Empty() {
        return null;
      }
      SumPrefix(entries, |entries|);
      assert entries[..|entries|] == entries && entries[1..][..|entries| - 1] == entries[1..];
      r := Behead();
      hide FcList.Linked;
      size := size - 1;
      totalDataSize := totalDataSize - r.dataSize;
    }

    /** The pointer part of a pop. */
    method Behead() returns (r: Node)
      requires Linked() && nodes != []
      modifies this`head, this`tail, this`nodes, this`entries, nodes
      ensures Linked() && r == old(nodes)[0] && nodes == old(nodes)[1..] && entries == old(entries)[1..]
      ensures r.owner == null && r.AsEntry() == old(entries)[0]
    {
      hide Sum;
      ghost var was, es := nodes, entries;
      r := head;
      if head.next == null {
        head, tail := null, null;
      } else {
        head := head.next;
      }
      r.prev, r.next, r.owner := null, null, null;
      nodes, entries := was[1..], es[1..];
      assert forall i :: 0 <= i < |nodes| ==> nodes[i] == was[i + 1] && entries[i] == es[i + 1];
    }

    /** fcache_list_delete_node, for the `k`-th node. */
    method DeleteNode(node: Node, ghost k: nat)
      requires Valid() && k < |nodes| && nodes[k] == node
      modifies this, nodes
      ensures Valid()
      ensures nodes == old(nodes)[..k] + old(nodes)[k + 1..] && entries == Remove(old(entries), k)
      ensures node.owner == null && node.AsEntry() == old(entries)[k]
    {
      hide Sum, Remove;
      SumRemove(entries, k);
      Unlink(node, k);
      size := size - 1;
      totalDataSize := totalDataSize - node.dataSize;
    }

    /** The pointer part of a delete. */
    method Unlink(node: Node, ghost k: nat)
      requires Linked() && k < |nodes| && nodes[k] == node
      modifies this`head, this`tail, this`nodes, this`entries, nodes
      ensures Linked()
      ensures nodes == old(nodes)[..k] + old(nodes)[k + 1..] && entries == Remove(old(entries), k)
      ensures node.owner == null && node.AsEntry() == old(entries)[k]
    {
      ghost var ns, rest := nodes[..k] + nodes[k + 1..], Remove(entries, k);
      Detach(node, k, ns, rest);
      nodes, entries := ns, rest;
    }

    static function First(ns: seq<Node>): Node? { if ns == [] then null else ns[0] }

    static function Last(ns: seq<Node>): Node? { if ns == [] then null else ns[|ns| - 1] }

    /** The nodes are linked both ways in this order; the prev link of the first is not looked at. */
    static ghost predicate Chained(ns: seq<Node>)
      reads ns
    {
      && (forall i {:trigger ns[i].next} :: 0 <= i < |ns| ==> ns[i].next == if i + 1 < |ns| then ns[i + 1] else null)
      && (forall i {:trigger ns[i].prev} :: 0 < i < |ns| ==> ns[i].prev == ns[i - 1])
    }

    /** Take the node out of the chain: the others are linked as `ns` lists them. */
    method Detach(node: Node, ghost k: nat, ghost ns: seq<Node>, ghost rest: seq<Entry>)
      requires Linked() && k < |nodes| && nodes[k] == node
      requires ns == nodes[..k] + nodes[k + 1..] && rest == Remove(entries, k)
      modifies this`head, this`tail, nodes
      ensures forall i :: 0 <= i < |ns| ==> ns[i] != node && ns[i].owner == this && ns[i].AsEntry() == rest[i]
      ensures Chained(ns) && head == First(ns) && tail == Last(ns)
      ensures node.owner == null && node.AsEntry() == entries[k]
    {
      hide Sum;
      assert forall i :: 0 <= i < |ns| ==> ns[i] == nodes[if i < k then i else i + 1] && ns[i] != node;
      assert forall i :: 0 <= i < |ns| ==> rest[i] == entries[if i < k then i else i + 1];
      Bypass(node, k);
      PastIsChained(nodes, k, ns);
      hide FcList.Linked, FcList.LinkedPast;
      node.prev, node.next, node.owner := null, null, null;
    }

    /** The chain of `ns` as it is when the `k`-th node has been led past. */
    static ghost predicate LinkedPast(ns: seq<Node>, k: nat)
      reads ns
    {
      && (forall i {:trigger ns[i].next} :: 0 <= i < |ns| && i != k ==>
            ns[i].next == var j := if i + 1 == k then i + 2 else i + 1; if j < |ns| then ns[j] else null)
      && (forall i {:trigger ns[i].prev} :: 0 < i < |ns| && i != k && (i != k + 1 || k > 0) ==>
            ns[i].prev == ns[if i - 1 == k then i - 2 else i - 1])
    }

    /** Without that node the chain is linked. */
    static lemma PastIsChained(was: seq<Node>, k: nat, ns: seq<Node>)
      requires k < |was| && LinkedPast(was, k)
      requires |ns| == |was| - 1 && forall i :: 0 <= i < |ns| ==> ns[i] == was[if i < k then i else i + 1]
      ensures Chained(ns)
    {
      forall i | 0 <= i < |ns|
        ensures ns[i].next == if i + 1 < |ns| then ns[i + 1] else null
        ensures i > 0 ==> ns[i].prev == ns[i - 1]
      {
        var j := if i < k then i else i + 1;
        assert was[j].next == if i + 1 < |ns| then ns[i + 1] else null;
      }
    }

    /** Lead head, tail and the neighbours' links past the `k`-th node. */
    method Bypass(node: Node, ghost k: nat)
      requires Linked() && k < |nodes| && nodes[k] == node
      modifies this`head, this`tail, nodes
      ensures forall i :: 0 <= i < |nodes| ==> nodes[i].owner == this && nodes[i].AsEntry() == entries[i]
      ensures head == if k > 0 then nodes[0] else if |nodes| > 1 then nodes[1] else null
      ensures tail == if k < |nodes| - 1 then nodes[|nodes| - 1] else if |nodes| > 1 then nodes[k - 1] else null
      ensures LinkedPast(nodes, k)
    {
      if node == head && node == tail {
        head, tail := null, null;
      } else if node == head {
        head := head.next;
      } else if node == tail {
        tail := node.prev;
        tail.next := null;
      } else {
        node.prev.next := node.next;
        node.next.prev := node.prev;
      }
    }

    /** fcache_list_update_node adjusts the total but does not store the new size in the node: the list stays
        consistent exactly when the size is the old one. */
    method UpdateNode(node: Node, newSize: nat)
      requires Valid() && node in nodes
      modifies this`totalDataSize
      ensures Linked() && totalDataSize == Sum(old(entries)) - node.dataSize + newSize
      ensures Valid() <==> newSize == node.dataSize
    {
      hide Sum;
      ghost var k :| 0 <= k < |nodes| && nodes[k] == node;
      SumRemove(entries, k);
      totalDataSize := totalDataSize - node.dataSize;
      totalDataSize := totalDataSize + newSize;
    }

    /** The data pointer of a node may be exchanged in place. */
    method SetData(node: Node, data: Option<Data>, ghost k: nat)
      requires Valid() && k < |nodes| && nodes[k] == node && data.Some?
      modifies this`entries, node`data
      ensures Valid() && nodes == old(nodes) && entries == old(entries)[k := old(entries)[k].(data := data)]
    {
      hide Sum;
      node.data := data;
      SameSum(entries, entries[k := entries[k].(data := data)]);
      entries := entries[k := entries[k].(data := data)];
    }
  }

  /** fcache_list_move_node, from the list that owns the node. */
  method MoveNode(from: FcList, to: FcList, node: Node, ghost k: nat)
    requires from.Valid() && to.Valid() && k < |from.nodes| && from.nodes[k] == node
    requires from != to ==> forall n :: n in from.nodes ==> n !in to.nodes
    modifies from, from.nodes, to, to.nodes
    ensures from.Valid() && to.Valid()
    ensures from == to ==> to.entries == Remove(old(to.entries), k) + [old(to.entries)[k]]
    ensures from == to ==> to.nodes == old(to.nodes)[..k] + old(to.nodes)[k + 1..] + [node]
    ensures from != to ==> from.entries == Remove(old(from.entries), k)
    ensures from != to ==> from.nodes == old(from.nodes)[..k] + old(from.nodes)[k + 1..]
    ensures from != to ==> to.entries == old(to.entries) + [old(from.entries)[k]] && to.nodes == old(to.nodes) + [node]
  {
    hide Sum;
    if from == to && from.size == 1 {
      assert from.entries == Remove(from.entries, 0) + [from.entries[0]];
      assert from.nodes == from.nodes[..0] + from.nodes[1..] + [node];
      return;
    }
    from.DeleteNode(node, k);
    to.Push(node, node.dataSize);
  }
}
