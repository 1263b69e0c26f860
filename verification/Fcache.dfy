/** The two-list LRU cache of fcache/fcache.c: a byte budget, a key index and two linked lists. */
module Fcache {
  import opened Options
  import opened FcacheSpec
  import opened FcacheList

  /** The index maps exactly the keys of the listed nodes to those nodes. */
  ghost predicate IndexMaps(index: map<Key, Node>, ns: seq<Node>) {
    && "" !in index
    && (forall k :: k in index ==> index[k].IsFor(k) && index[k] in ns)
    && (forall n :: n in ns ==> n.IsFor(n.key) && n.key in index && index[n.key] == n)
  }

  ghost predicate Distinct(ns: seq<Node>) {
    forall i, j :: 0 <= i < j < |ns| ==> ns[i] != ns[j]
  }

  lemma IndexRemove(index: map<Key, Node>, ns: seq<Node>, k: nat)
    requires IndexMaps(index, ns) && Distinct(ns) && k < |ns|
    ensures IndexMaps(index - {ns[k].key}, ns[..k] + ns[k + 1..])
  {
    var rest, left := ns[..k] + ns[k + 1..], index - {ns[k].key};
    forall n | n in rest ensures n.key in left && left[n.key] == n {
      assert n in ns && n != ns[k];
    }
    forall key | key in left ensures left[key].key == key && left[key] in rest {
      var i :| 0 <= i < |ns| && ns[i] == index[key];
      assert i != k;
      assert rest[if i < k then i else i - 1] == ns[i];
    }
  }

  /** fhash_str_set ignores an empty key. */
  function Indexed(index: map<Key, Node>, key: Key, node: Node): map<Key, Node> {
    if key == "" then index else index[key := node]
  }

  /** Indexing a new node under a key it was made for keeps the index right exactly if the key fits. */
  lemma IndexAdd(index: map<Key, Node>, ns: seq<Node>, key: Key, keySize: nat, node: Node, ns': seq<Node>)
    requires IndexMaps(index, ns) && key !in index
    requires node.key == StoredKey(key, keySize) && node.terminated == Terminates(key, keySize)
    requires forall n :: n in ns' <==> n in ns || n == node
    ensures IndexMaps(Indexed(index, key, node), ns') <==> KeyFits(key, keySize)
  {
    hide StoredKey, Terminates;
    var after := Indexed(index, key, node);
    assert node in ns';
    if KeyFits(key, keySize) {
      forall n | n in ns' ensures n.IsFor(n.key) && n.key in after && after[n.key] == n {
      }
    }
    if key == "" && IndexMaps(after, ns') {
      assert node.key == "" by { EmptyKey(keySize); }
      assert false;
    }
    if key != "" && IndexMaps(after, ns') {
      assert after[key] == node && node.IsFor(key);
    }
  }

  lemma EmptyKey(keySize: nat)
    ensures StoredKey("", keySize) == ""
  {
  }

  lemma IndexKept(index: map<Key, Node>, ns: seq<Node>, ns': seq<Node>)
    requires IndexMaps(index, ns) && forall n :: n in ns' <==> n in ns
    ensures IndexMaps(index, ns')
  {
  }

  class Fcache {
    const maxSize: nat
    const objFree: bool
    var index: map<Key, Node>
    var active: FcList
    var inactive: FcList
    var opCount: nat
    var enableBalance: bool
    ghost var freed: seq<Option<Data>>  // arguments of the calls of the free callback so far

    ghost predicate Lists()
      reads this, active, inactive, active.nodes, inactive.nodes
    {
      active != inactive && active.Valid() && inactive.Valid()
    }

    ghost predicate Valid()
      reads this, active, inactive, active.nodes, inactive.nodes
    {
      Lists() && IndexMaps(index, Nodes()) && Sum(Abs().Recency()) <= maxSize
    }

    ghost function Abs(): Cache
      reads this, active, inactive
    {
      Cache(inactive.entries, active.entries)
    }

    /** The nodes by recency. */
    ghost function Nodes(): seq<Node>
      reads this, active, inactive
    {
      inactive.nodes + active.nodes
    }

    ghost function Freed(es: seq<Option<Data>>): seq<Option<Data>> {
      if objFree then es else []
    }

    /** fcache_create, for a budget above 0. */
    constructor (maxSize: nat, objFree: bool)
      requires maxSize > 0
      ensures Valid() && Abs() == Cache([], []) && freed == [] && this.maxSize == maxSize && this.objFree == objFree
      ensures fresh(active) && fresh(inactive) && !enableBalance && opCount == 0
    {
      this.maxSize, this.objFree := maxSize, objFree;
      index, opCount, enableBalance, freed := map[], 0, false, [];
      active := new FcList();
      inactive := new FcList();
    }

    /** fcache_create: no cache for a budget of 0. */
    static method Create(maxSize: nat, objFree: bool) returns (c: Fcache?)
      ensures c == null <==> maxSize == 0
      ensures c != null ==> fresh(c) && c.Valid() && c.Abs() == Cache([], []) && c.maxSize == maxSize
    {
      if maxSize == 0 {
        return null;
      }
      c := new Fcache(maxSize, objFree);
    }

    /** The two lists share no node, because a node knows its owner. */
    lemma Disjoint()
      requires Lists()
      ensures forall n :: n in inactive.nodes ==> n !in active.nodes
      ensures forall i, j :: 0 <= i < |inactive.nodes| && 0 <= j < |active.nodes| ==>
                inactive.nodes[i] != active.nodes[j]
    {
      hide Sum;
      forall n | n in inactive.nodes ensures n !in active.nodes {
        var i :| 0 <= i < |inactive.nodes| && inactive.nodes[i] == n;
        assert n.owner == inactive;
      }
    }

    /** The oldest active node becomes the newest inactive one. */
    method MoveOldest()
      requires Lists() && active.nodes != []
      modifies active, inactive, active.nodes, inactive.nodes
      ensures Lists()
      ensures active.nodes == old(active.nodes)[1..] && active.entries == old(active.entries)[1..]
      ensures inactive.nodes == old(inactive.nodes) + [old(active.nodes)[0]]
      ensures inactive.entries == old(inactive.entries) + [old(active.entries)[0]]
    {
      hide Sum;
      Disjoint();
      ghost var was := active.nodes;
      var node := active.Pop();
      assert node !in active.nodes;
      inactive.Push(node, node.dataSize);
    }

    /** The loop of _fcache_balance_nodes. */
    method MoveOldestTimes(n: nat)
      requires Lists() && n <= |active.nodes|
      modifies active, inactive, active.nodes, inactive.nodes
      ensures Lists()
      ensures active.nodes == old(active.nodes)[n..] && active.entries == old(active.entries)[n..]
      ensures inactive.nodes == old(inactive.nodes) + old(active.nodes)[..n]
      ensures inactive.entries == old(inactive.entries) + old(active.entries)[..n]
    {
      hide Sum, FcList.Linked;
      ghost var ins, acts, inn, acn := inactive.entries, active.entries, inactive.nodes, active.nodes;
      var i := 0;
      while i < n
        invariant i <= n <= |acts| == |acn|
        invariant Lists()
        invariant inactive.entries == ins + acts[..i] && active.entries == acts[i..]
        invariant inactive.nodes == inn + acn[..i] && active.nodes == acn[i..]
      {
        MoveOldest();
        i := i + 1;
      }
    }

    /** _fcache_balance_nodes. */
    method BalanceNodes()
      requires Valid()
      modifies active, inactive, active.nodes, inactive.nodes
      ensures Valid() && Abs() == Balance(old(Abs())) && Nodes() == old(Nodes())
    {
      hide Sum, IndexMaps, FcList.Linked;
      ghost var was, ns := Abs(), Nodes();
      BalanceMovesOnlyTheSplit(was);
      var half := (inactive.size + active.size) / 2;
      if active.size <= half {
        return;
      }
      var n := active.size - half;
      SplitMoves(inactive.nodes, active.nodes, n);
      MoveOldestTimes(n);
    }

    lemma NodesDistinct()
      requires Lists()
      ensures Distinct(Nodes())
    {
      hide Sum;
      Disjoint();
    }

    // ---------------------------------------------------------------- dropping

    /** _fcache_del_node on the node that was just popped: the index forgets the key stored in the node. */
    method DropOldest()
      requires Lists() && inactive.nodes != [] && inactive.nodes[0].terminated
      modifies this`index, this`freed, inactive, inactive.nodes
      ensures Lists() && index == old(index) - {old(inactive.nodes)[0].key}
      ensures old(IndexMaps(index, Nodes())) ==> IndexMaps(index, Nodes())
      ensures active.nodes == old(active.nodes) && active.entries == old(active.entries)
      ensures inactive.nodes == old(inactive.nodes)[1..] && inactive.entries == old(inactive.entries)[1..]
      ensures freed == old(freed) + Freed([old(inactive.entries)[0].data])
      ensures index.Keys <= old(index.Keys)
    {
      hide Sum, IndexMaps, FcList.Linked;
      Disjoint();
      NodesDistinct();
      ghost var ns := Nodes();
      if IndexMaps(index, ns) {
        IndexRemove(index, ns, 0);
      }
      var node := inactive.Pop();
      if objFree {
        freed := freed + [node.data];
      }
      index := index - {node.key};
      assert Nodes() == ns[..0] + ns[1..];
    }

    /** The dropping loop of _fcache_check_and_drop_nodes. */
    method DropNodes(need: nat)
      requires Lists() && IndexMaps(index, Nodes())
      modifies this`index, this`freed, inactive, inactive.nodes
      ensures Lists() && IndexMaps(index, Nodes()) && active.entries == old(active.entries)
      ensures active.nodes == old(active.nodes) && forall n :: n in inactive.nodes ==> n in old(inactive.nodes)
      ensures inactive.entries == old(inactive.entries)[DropCount(old(inactive.entries), need)..]
      ensures freed == old(freed) + Freed(Datas(old(inactive.entries)[..DropCount(old(inactive.entries), need)]))
      ensures index.Keys <= old(index.Keys)
    {
      hide Sum, IndexMaps, FcList.Linked, Datas;
      ghost var ins, inn, acn := inactive.entries, inactive.nodes, active.nodes;
      ghost var goal := DropCount(ins, need);
      ghost var i, gone := 0, [];
      var dropped := 0;
      DatasNone();
      assert ins[..0] == [];
      while dropped < need && inactive.head != null
        invariant i <= |ins| && Lists() && IndexMaps(index, Nodes())
        invariant active.entries == old(active.entries) && active.nodes == acn
        invariant inactive.entries == ins[i..] && i <= |inn| && inactive.nodes == inn[i..]
        invariant goal == i + DropCount(inactive.entries, need - dropped)
        invariant gone == Datas(ins[..i]) && freed == old(freed) + Freed(gone) && index.Keys <= old(index.Keys)
        decreases |ins| - i
      {
        HeadIsFirst();
        OldestReadable();
        assert forall n :: n in inn[i..] ==> n in inn;
        dropped := dropped + inactive.head.dataSize;
        DropOldest();
        DatasOne(ins, i);
        i, gone := i + 1, gone + [ins[i].data];
      }
      HeadIsFirst();
    }

    lemma OldestReadable()
      requires IndexMaps(index, Nodes()) && inactive.nodes != []
      ensures inactive.nodes[0].terminated
    {
      assert Nodes()[0] in Nodes();
    }

    lemma HeadIsFirst()
      requires Lists()
      ensures inactive.head == null <==> inactive.entries == []
      ensures inactive.head != null ==> inactive.nodes != [] && inactive.head.dataSize == inactive.entries[0].size
    {
    }

    /** _fcache_check_and_drop_nodes, when a node is added or an existing one does not grow. */
    method CheckAndDrop(node: Node?, targetSize: nat) returns (refused: bool)
      requires Valid() && targetSize <= maxSize
      requires node != null ==> targetSize <= node.dataSize
      modifies this`index, this`freed, active, inactive, active.nodes, inactive.nodes
      ensures Valid() && index.Keys <= old(index.Keys)
      ensures forall n :: n in Nodes() ==> n in old(Nodes())
      ensures node != null ==>
        !refused && Nodes() == old(Nodes()) && Abs() == old(Abs()) && freed == old(freed) && index == old(index)
      ensures node == null ==> var o := MakeRoom(old(Abs()), maxSize, targetSize);
        refused == o.refused && Abs() == o.cache && freed == old(freed) + Freed(o.freed)
    {
      hide Sum, FcList.Linked, IndexMaps, DropCount, Balance;
      SumAppend(inactive.entries, active.entries);
      var growSize := if node == null then targetSize else 0;
      var freeSize := maxSize - active.totalDataSize - inactive.totalDataSize;
      if growSize == 0 || freeSize >= growSize {
        return false;
      }
      var dropSize := growSize - freeSize;
      if inactive.totalDataSize < dropSize {
        BalanceNodes();
        if inactive.totalDataSize < dropSize {
          return true;
        }
      }
      ghost var c, ns := Abs(), Nodes();
      forall i | 0 <= i < |inactive.nodes|
        ensures inactive.nodes[i] in old(inactive.nodes) || inactive.nodes[i] in old(active.nodes)
      {
        assert inactive.nodes[i] in ns;
      }
      DropNodes(dropSize);
      DroppingFits(c, DropCount(c.inactive, dropSize));
      return false;
    }

    // ---------------------------------------------------------------- where a key is

    /** The node the index gives for a key is the one at the key's place in the entries. */
    lemma Placed(key: Key)
      requires Lists() && IndexMaps(index, Nodes())
      ensures key in index <==> Has(Abs(), key)
      ensures key in index ==> index[key].key == key
      ensures key in index ==>
        var i, j := Where(inactive.entries, key), Where(active.entries, key);
        if index[key].owner == active
        then i == |inactive.entries| && j < |active.nodes| && active.nodes[j] == index[key]
        else index[key].owner == inactive && i < |inactive.nodes| && inactive.nodes[i] == index[key]
    {
      hide Sum;
      var i, j := Where(inactive.entries, key), Where(active.entries, key);
      if i < |inactive.entries| {
        assert inactive.nodes[i] in Nodes() && inactive.nodes[i].key == key;
      } else if j < |active.entries| {
        assert active.nodes[j] in Nodes() && active.nodes[j].key == key;
      }
      if key in index {
        var k :| 0 <= k < |Nodes()| && Nodes()[k] == index[key];
        if k < |inactive.nodes| {
          assert inactive.entries[k].key == key;
        } else {
          assert active.entries[k - |inactive.nodes|].key == key;
        }
      }
    }

    // ---------------------------------------------------------------- the parts of fcache_set_obj

    /** Unless it is empty, the key leads to the most recent inactive node, made for this key. */
    ghost predicate IndexedLast(key: Key, keySize: nat)
      reads this`index, this`inactive, inactive
    {
      inactive.nodes != [] && (key != "" ==>
        && key in index && index[key] == inactive.nodes[|inactive.nodes| - 1]
        && index[key].key == StoredKey(key, keySize) && index[key].terminated == Terminates(key, keySize))
    }

    /** _fcache_add_node: a new node comes in at the recent end of the inactive list. */
    method AddNode(key: Key, keySize: nat, value: Option<Data>, size: nat)
      requires Lists() && IndexMaps(index, Nodes()) && key !in index
      modifies this`index, inactive, inactive.nodes
      ensures Lists() && (IndexMaps(index, Nodes()) <==> KeyFits(key, keySize))
      ensures inactive.entries == old(inactive.entries) + [Entry(StoredKey(key, keySize), value, size)]
      ensures active.entries == old(active.entries)
      ensures IndexedLast(key, keySize)
    {
      hide Sum, IndexMaps, FcList.Linked;
      Disjoint();
      var node := new Node(key, keySize, value);
      ghost var ns, ins := Nodes(), inactive.nodes;
      IndexAdd(index, ns, key, keySize, node, ins + [node] + active.nodes);
      if key != "" {
        index := index[key := node];
      }
      inactive.Push(node, size);
      assert Nodes() == ins + [node] + active.nodes;
    }

    /** _fcache_del_node on a listed node. */
    method DelNode(node: Node)
      requires Valid() && node.key in index && index[node.key] == node
      modifies this`index, this`freed, active, inactive, active.nodes, inactive.nodes
      ensures Valid() && Abs() == Delete(old(Abs()), node.key)
      ensures freed == old(freed) + Freed([Lookup(old(Abs()), node.key).data])
    {
      hide Sum, IndexMaps, FcList.Linked, Remove, Lookup;
      Placed(node.key);
      DataAt(node);
      DeleteSum(Abs(), node.key);
      ghost var i, j := Where(inactive.entries, node.key), Where(active.entries, node.key);
      if objFree {
        freed := freed + [node.data];
      }
      ghost var key := node.key;
      if node.owner == active {
        DelActive(node, j);
      } else {
        DelInactive(node, i);
      }
    }

    method DelActive(node: Node, ghost j: nat)
      requires Lists() && IndexMaps(index, Nodes()) && j < |active.nodes| && active.nodes[j] == node
      modifies this`index, active, active.nodes
      ensures Lists() && IndexMaps(index, Nodes())
      ensures inactive.entries == old(inactive.entries) && active.entries == Remove(old(active.entries), j)
    {
      hide Sum, IndexMaps, FcList.Linked, Remove;
      NodesDistinct();
      Disjoint();
      ghost var ns, k := Nodes(), |inactive.nodes| + j;
      assert ns[k] == node;
      IndexRemove(index, ns, k);
      RemoveRight(inactive.nodes, active.nodes, j);
      active.DeleteNode(node, j);
      index := index - {node.key};
      assert Nodes() == ns[..k] + ns[k + 1..];
    }

    method DelInactive(node: Node, ghost i: nat)
      requires Lists() && IndexMaps(index, Nodes()) && i < |inactive.nodes| && inactive.nodes[i] == node
      modifies this`index, inactive, inactive.nodes
      ensures Lists() && IndexMaps(index, Nodes())
      ensures active.entries == old(active.entries) && inactive.entries == Remove(old(inactive.entries), i)
    {
      hide Sum, IndexMaps, FcList.Linked, Remove;
      NodesDistinct();
      Disjoint();
      ghost var ns := Nodes();
      assert ns[i] == node;
      IndexRemove(index, ns, i);
      RemoveLeft(inactive.nodes, active.nodes, i);
      inactive.DeleteNode(node, i);
      index := index - {node.key};
      assert Nodes() == ns[..i] + ns[i + 1..];
    }

    lemma DataAt(node: Node)
      requires Valid() && node.key in index && index[node.key] == node
      ensures Has(Abs(), node.key) && Lookup(Abs(), node.key) == node.AsEntry()
    {
      hide Sum;
      Placed(node.key);
    }

    /** _fcache_update_node with an object of the same size: it replaces the old one where that is. */
    method UpdateNode(node: Node, value: Data)
      requires Valid() && node.key in index && index[node.key] == node
      modifies this`freed, active, inactive, node
      ensures Valid() && Abs() == Update(old(Abs()), node.key, Some(value)) && index == old(index)
      ensures freed == old(freed) +
        (if Lookup(old(Abs()), node.key).data == Some(value) then [] else Freed([Lookup(old(Abs()), node.key).data]))
    {
      hide Sum, IndexMaps, FcList.Linked, Lookup;
      Placed(node.key);
      Disjoint();
      DataAt(node);
      UpdateSum(Abs(), node.key, Some(value));
      if node.data != Some(value) && objFree {
        freed := freed + [node.data];
      }
      if node.owner == active {
        active.SetData(node, Some(value), Where(active.entries, node.key));
        active.UpdateNode(node, node.dataSize);
      } else {
        inactive.SetData(node, Some(value), Where(inactive.entries, node.key));
        inactive.UpdateNode(node, node.dataSize);
      }
    }

    // ---------------------------------------------------------------- fcache_set_obj, fcache_get_obj

    /** A key that is there may be deleted (no object) or given another object of the same size. */
    predicate InScope(key: Key, value: Option<Data>, size: nat)
      reads this, index.Values
    {
      key in index ==> if value.Some? then size == index[key].dataSize else size <= index[key].dataSize
    }

    predicate BadArguments(keySize: nat, value: Option<Data>, size: nat) {
      keySize == 0 || (value.Some? && size == 0) || size > maxSize
    }

    /** fcache_set_obj; `trapped` says that the heuristic at its end divides by zero. */
    method SetObj(key: Key, keySize: nat, value: Option<Data>, size: nat) returns (failed: bool, trapped: bool)
      requires Valid() && InScope(key, value, size)
      modifies this, active, inactive, active.nodes, inactive.nodes
      ensures Lists() && Sum(Abs().Recency()) <= maxSize && opCount == old(opCount)
      ensures Valid() <==> BadArguments(keySize, value, size) || failed || Has(old(Abs()), key) || KeyFits(key, keySize)
      ensures !Valid() ==> IndexedLast(key, keySize)
      ensures BadArguments(keySize, value, size) ==> failed && Abs() == old(Abs()) && freed == old(freed)
      ensures !BadArguments(keySize, value, size) ==>
        && var c := old(Abs());
           if !Has(c, key) then
             var o := Add(c, maxSize, Entry(StoredKey(key, keySize), value, size));
             failed == o.refused && Abs() == o.cache && freed == old(freed) + Freed(o.freed)
           else if value.Some? then
             !failed && Abs() == Update(c, key, value) &&
             freed == old(freed) + (if Lookup(c, key).data == value then [] else Freed([Lookup(c, key).data]))
           else
             !failed && Abs() == Delete(c, key) && freed == old(freed) + Freed([Lookup(c, key).data])
      ensures trapped <==> !failed && !old(enableBalance) && NoAverage(Abs())
      ensures !trapped && !failed ==> enableBalance == (old(enableBalance) || NearlyFull(Abs(), maxSize))
      ensures trapped || failed ==> enableBalance == old(enableBalance)
    {
      hide Sum, FcList.Linked, IndexMaps, Lookup, Update, Delete, Has, MakeRoom, NoAverage, NearlyFull;
      hide KeyFits, StoredKey, Terminates, IndexedLast;
      if keySize == 0 || (value.Some? && size == 0) || size > maxSize {
        return true, false;
      }
      Placed(key);
      if key !in index {
        failed := AddObj(key, keySize, value, size);
      } else {
        ChangeObj(index[key], value, size);
        failed := false;
      }
      trapped := false;
      if !enableBalance && !failed {
        trapped := EnableBalance();
      }
    }

    /** Periodic balancing is switched on once few more entries of average size fit. */
    method EnableBalance() returns (trapped: bool)
      requires Lists() && Sum(Abs().Recency()) <= maxSize && !enableBalance
      modifies this`enableBalance
      ensures trapped == NoAverage(Abs())
      ensures enableBalance == (!trapped && NearlyFull(Abs(), maxSize))
    {
      hide Sum, IndexMaps;
      SumAppend(inactive.entries, active.entries);
      var currentSize := inactive.totalDataSize + active.totalDataSize;
      var count := inactive.size + active.size;
      if count == 0 {
        return true;
      }
      AverageIsPositive(currentSize, count);
      var averageSize := currentSize / count;
      if averageSize == 0 {
        return true;
      }
      var times := (maxSize - currentSize) / averageSize;
      if times <= BALANCE_INTERVAL {
        enableBalance := true;
      }
      return false;
    }

    /** fcache_set_obj for a key that is not there. */
    method AddObj(key: Key, keySize: nat, value: Option<Data>, size: nat) returns (failed: bool)
      requires Valid() && key !in index && size <= maxSize
      modifies this`index, this`freed, active, inactive, active.nodes, inactive.nodes
      ensures Lists() && Sum(Abs().Recency()) <= maxSize
      ensures Valid() <==> failed || KeyFits(key, keySize)
      ensures !failed ==> IndexedLast(key, keySize)
      ensures var o := Add(old(Abs()), maxSize, Entry(StoredKey(key, keySize), value, size));
        failed == o.refused && Abs() == o.cache && freed == old(freed) + Freed(o.freed)
    {
      hide Sum, FcList.Linked, IndexMaps, MakeRoom, KeyFits, StoredKey, Terminates, IndexedLast;
      AddKeepsBudget(Abs(), maxSize, Entry(StoredKey(key, keySize), value, size));
      ghost var was := Nodes();
      failed := CheckAndDrop(null, size);
      if !failed {
        forall i | 0 <= i < |inactive.nodes|
          ensures inactive.nodes[i] in old(inactive.nodes) || inactive.nodes[i] in old(active.nodes)
        {
          assert inactive.nodes[i] in Nodes();
          assert inactive.nodes[i] in was;
        }
        AddNode(key, keySize, value, size);
      }
    }

    /** fcache_set_obj for a listed node. */
    method ChangeObj(node: Node, value: Option<Data>, size: nat)
      requires Valid() && node.key in index && index[node.key] == node && size <= maxSize
      requires if value.Some? then size == node.dataSize else size <= node.dataSize
      modifies this`index, this`freed, active, inactive, active.nodes, inactive.nodes
      ensures Valid()
      ensures var c := old(Abs());
        && Abs() == (if value.Some? then Update(c, node.key, value) else Delete(c, node.key))
        && freed == old(freed) +
             (if Lookup(c, node.key).data == value && value.Some? then [] else Freed([Lookup(c, node.key).data]))
    {
      hide Sum, FcList.Linked, IndexMaps, Lookup, Update, Delete;
      Placed(node.key);
      DataAt(node);
      ghost var was := Nodes();
      var _ := CheckAndDrop(node, size);
      StillListed(node);
      if value.Some? {
        UpdateNode(node, value.value);
      } else {
        forall i | 0 <= i < |inactive.nodes|
          ensures inactive.nodes[i] in old(inactive.nodes) || inactive.nodes[i] in old(active.nodes)
        {
          assert inactive.nodes[i] in was;
        }
        forall i | 0 <= i < |active.nodes|
          ensures active.nodes[i] in old(inactive.nodes) || active.nodes[i] in old(active.nodes)
        {
          assert active.nodes[i] in was;
        }
        DelNode(node);
      }
    }

    lemma StillListed(node: Node)
      requires Valid() && node.key in index && index[node.key] == node
      ensures node in inactive.nodes || node in active.nodes
    {
      hide Sum;
      assert node in Nodes();
    }

    /** fcache_get_obj: every so often a balance first; the entry found becomes the most recent. */
    method GetObj(key: Key) returns (r: Option<Data>)
      requires Valid()
      modifies this`opCount, active, inactive, active.nodes, inactive.nodes
      ensures Valid() && index == old(index)
      ensures var due := old(enableBalance) && old(opCount) + 1 == BALANCE_INTERVAL;
        var c := if due then Balance(old(Abs())) else old(Abs());
        && Abs() == Touch(c, key)
        && r == if Has(c, key) then Lookup(c, key).data else None
      ensures opCount == if !old(enableBalance) then old(opCount)
                         else if old(opCount) + 1 == BALANCE_INTERVAL then 0 else old(opCount) + 1
    {
      hide Sum, FcList.Linked, IndexMaps, Lookup, Touch, Has, Balance;
      ghost var was := Nodes();
      if enableBalance {
        opCount := opCount + 1;
        if opCount == BALANCE_INTERVAL {
          opCount := 0;
          BalanceNodes();
        }
      }
      forall i | 0 <= i < |inactive.nodes|
        ensures inactive.nodes[i] in old(inactive.nodes) || inactive.nodes[i] in old(active.nodes)
      {
        assert inactive.nodes[i] in was;
      }
      forall i | 0 <= i < |active.nodes|
        ensures active.nodes[i] in old(inactive.nodes) || active.nodes[i] in old(active.nodes)
      {
        assert active.nodes[i] in was;
      }
      r := GetNow(key);
    }

    /** fcache_get_obj after the periodic balance. */
    method GetNow(key: Key) returns (r: Option<Data>)
      requires Valid()
      modifies active, inactive, active.nodes, inactive.nodes
      ensures Valid() && Abs() == Touch(old(Abs()), key)
      ensures r == if Has(old(Abs()), key) then Lookup(old(Abs()), key).data else None
    {
      hide Sum, FcList.Linked, IndexMaps, Lookup, Remove;
      Placed(key);
      TouchSum(Abs(), key);
      if key !in index {
        return None;
      }
      var node := index[key];
      DataAt(node);
      Disjoint();
      ghost var i, j := Where(inactive.entries, key), Where(active.entries, key);
      r := node.data;
      ghost var ns, ins, acs := Nodes(), inactive.nodes, active.nodes;
      if node.owner == active {
        MovedKeeps(ins, acs, j);
        MoveNode(active, active, node, j);
        IndexKept(index, ns, Nodes());
      } else {
        CrossKeeps(ins, acs, i);
        MoveNode(inactive, active, node, i);
        IndexKept(index, ns, Nodes());
      }
    }
  }

  /** What a call of fcache_set_obj hands to the cache for keeping: the object of a new entry, or one that
      replaces another. */
  ghost function Taken(c: Cache, key: Key, value: Option<Data>): multiset<Option<Data>> {
    if !Has(c, key) then multiset{value}
    else if value.None? || Lookup(c, key).data == value then multiset{}
    else multiset{value}
  }

  /** Every object handed over is afterwards cached or has been given to the free callback, once; without the
      callback the cache frees nothing. */
  method SetConserves(c: Fcache, key: Key, keySize: nat, value: Option<Data>, size: nat)
    returns (failed: bool, ghost gone: seq<Option<Data>>)
    requires c.Valid() && c.InScope(key, value, size)
    modifies c, c.active, c.inactive, c.active.nodes, c.inactive.nodes
    ensures if c.objFree then c.freed == old(c.freed) + gone else c.freed == old(c.freed)
    ensures multiset(Datas(c.Abs().Recency())) + multiset(gone)
         == multiset(Datas(old(c.Abs()).Recency())) + (if failed then multiset{} else Taken(old(c.Abs()), key, value))
  {
    hide IndexMaps, FcList.Linked, Sum, Has, Lookup, Update, Delete, Datas, NoAverage, NearlyFull, KeyFits, StoredKey;
    ghost var was := c.Abs();
    gone := [];
    if !c.BadArguments(keySize, value, size) {
      if !Has(was, key) {
        AddConservesObjects(was, c.maxSize, Entry(StoredKey(key, keySize), value, size));
        gone := Add(was, c.maxSize, Entry(StoredKey(key, keySize), value, size)).freed;
      } else if value.Some? {
        UpdateConserves(was, key, value);
        SameObject(was, key);
        gone := if Lookup(was, key).data == value then [] else [Lookup(was, key).data];
      } else {
        DeleteConserves(was, key);
        gone := [Lookup(was, key).data];
      }
    }
    var trapped;
    failed, trapped := c.SetObj(key, keySize, value, size);
  }

  lemma UpdateConserves(c: Cache, key: Key, data: Option<Data>)
    requires Has(c, key)
    ensures multiset(Datas(Update(c, key, data).Recency())) + multiset{Lookup(c, key).data}
         == multiset(Datas(c.Recency())) + multiset{data}
  {
    LookupIsFirst(c, key);
    UpdateIs(c, key, data);
    hide Update, Lookup, Has;
    var all, at := c.Recency(), Where(c.Recency(), key);
    assert Datas(all[at := all[at].(data := data)]) == Datas(all)[at := data];
  }

  lemma SameObject(c: Cache, key: Key)
    requires Has(c, key)
    ensures Update(c, key, Lookup(c, key).data) == c
  {
  }

  lemma DeleteConserves(c: Cache, key: Key)
    requires Has(c, key)
    ensures multiset(Datas(Delete(c, key).Recency())) + multiset{Lookup(c, key).data} == multiset(Datas(c.Recency()))
  {
    LookupIsFirst(c, key);
    DeleteIs(c, key);
    hide Delete, Lookup, Has;
    var all, at := c.Recency(), Where(c.Recency(), key);
    assert Datas(Remove(all, at)) == Datas(all)[..at] + Datas(all)[at + 1..];
    OneOut(Datas(all), at);
  }

  lemma OneOut<T>(s: seq<T>, i: nat)
    requires i < |s|
    ensures multiset(s[..i] + s[i + 1..]) + multiset{s[i]} == multiset(s)
  {
    assert s == s[..i] + [s[i]] + s[i + 1..];
  }

  /** Any cache without periodic balancing divides by zero when its only entry is deleted. */
  method DeleteLastTraps(c: Fcache, key: Key) returns (trapped: bool)
    requires c.Valid() && !c.enableBalance && |c.Abs().Recency()| == 1 && c.Abs().Recency()[0].key == key
    modifies c, c.active, c.inactive, c.active.nodes, c.inactive.nodes
    ensures trapped && c.Abs().Recency() == []
  {
    hide Sum, IndexMaps, FcList.Linked, NearlyFull;
    DeleteOnly(c.Abs(), key);
    c.Placed(key);
    var failed;
    failed, trapped := c.SetObj(key, 1, None, 0);
  }

  lemma DeleteOnly(c: Cache, key: Key)
    requires |c.Recency()| == 1 && c.Recency()[0].key == key
    ensures Has(c, key) && Delete(c, key).Recency() == []
  {
    assert c.inactive == [] ==> c.active == [c.Recency()[0]];
    assert c.inactive != [] ==> c.inactive == [c.Recency()[0]];
  }

  /** Such a cache is one object away from creation. */
  method OneEntry() returns (c: Fcache)
    ensures c.Valid() && !c.enableBalance && c.Abs().Recency() == [Entry("a", Some(1), 10)]
  {
    hide IndexMaps, FcList.Linked, Sum, NearlyFull, NoAverage;
    c := new Fcache(1000000, false);
    c.Placed("a");
    FirstAdd(1000000, Entry("a", Some(1), 10));
    SparseCache();
    var failed, trapped := c.SetObj("a", 1, Some(1), 10);
  }

  /** Adding an entry without an object, of size 0, to an empty cache divides by zero as well. */
  method EmptyEntryTraps(maxSize: nat) returns (trapped: bool)
    requires maxSize > 0
    ensures trapped
  {
    hide IndexMaps, FcList.Linked, Sum, NearlyFull;
    var c := new Fcache(maxSize, false);
    c.Placed("a");
    FirstAdd(maxSize, Entry("a", None, 0));
    SumOne(Entry("a", None, 0));
    var failed;
    failed, trapped := c.SetObj("a", 1, None, 0);
  }

  /** A key longer than said by more than a byte: the node holds the start of it, the index the whole. */
  method CutKey() returns (c: Fcache)
    ensures !c.Valid() && c.Lists() && c.inactive.nodes != [] && "abcdef" in c.index
    ensures c.index["abcdef"] == c.inactive.nodes[0] && c.inactive.nodes[0].IsFor("abcd")
  {
    hide IndexMaps, Sum, NearlyFull, NoAverage;
    c := new Fcache(1000, false);
    c.Placed("abcdef");
    assert StoredKey("abcdef", 3) == "abcd" && !KeyFits("abcdef", 3);
    FirstAdd(1000, Entry("abcd", Some(1), 10));
    var failed, trapped := c.SetObj("abcdef", 3, Some(1), 10);
  }

  /** When such a node is dropped, the index goes on leading from the key to the freed node. */
  method CutKeyDangles(c: Fcache, key: Key)
    requires c.Lists() && c.inactive.nodes != [] && c.inactive.nodes[0].terminated
    requires key in c.index && c.index[key] == c.inactive.nodes[0] && c.index[key].key != key
    modifies c`index, c`freed, c.inactive, c.inactive.nodes
    ensures key in c.index && c.index[key] == old(c.inactive.nodes)[0] && c.index[key] !in c.Nodes()
  {
    hide Sum, IndexMaps;
    c.NodesDistinct();
    ghost var ns := c.Nodes();
    c.DropOldest();
    assert c.Nodes() == ns[1..];
  }

  lemma FirstAdd(maxSize: nat, e: Entry)
    requires e.size <= maxSize
    ensures Add(Cache([], []), maxSize, e) == Outcome(Cache([e], []), [], false)
    ensures !Has(Cache([], []), e.key) && Cache([e], []).Recency() == [e]
  {
  }

  lemma SparseCache()
    ensures var c := Cache([Entry("a", Some(1), 10)], []);
      Sum(c.Recency()) == 10 && !NoAverage(c) && !NearlyFull(c, 1000000)
  {
    var c := Cache([Entry("a", Some(1), 10)], []);
    assert c.Recency() == [Entry("a", Some(1), 10)];
    SumOne(Entry("a", Some(1), 10));
  }

  lemma MovedKeeps(a: seq<Node>, b: seq<Node>, j: nat)
    requires j < |b|
    ensures forall n :: n in a + (b[..j] + b[j + 1..] + [b[j]]) <==> n in a + b
  {
    assert b == b[..j] + [b[j]] + b[j + 1..];
  }

  lemma CrossKeeps(a: seq<Node>, b: seq<Node>, i: nat)
    requires i < |a|
    ensures forall n :: n in (a[..i] + a[i + 1..]) + (b + [a[i]]) <==> n in a + b
  {
    assert a == a[..i] + [a[i]] + a[i + 1..];
  }

  lemma TouchSum(c: Cache, key: Key)
    ensures Sum(Touch(c, key).Recency()) == Sum(c.Recency())
  {
    hide Sum;
    var i, j := Where(c.inactive, key), Where(c.active, key);
    if i < |c.inactive| {
      TouchMovesToEnd(c, i, false);
    } else if j < |c.active| {
      TouchMovesToEnd(c, j, true);
    }
  }

  lemma RemoveLeft<T>(a: seq<T>, b: seq<T>, i: nat)
    requires i < |a|
    ensures (a + b)[..i] + (a + b)[i + 1..] == (a[..i] + a[i + 1..]) + b
  {
  }

  lemma RemoveRight<T>(a: seq<T>, b: seq<T>, j: nat)
    requires j < |b|
    ensures (a + b)[..|a| + j] + (a + b)[|a| + j + 1..] == a + (b[..j] + b[j + 1..])
  {
  }

  lemma DeleteSum(c: Cache, key: Key)
    ensures Sum(Delete(c, key).Recency()) <= Sum(c.Recency())
  {
    var i, j := Where(c.inactive, key), Where(c.active, key);
    SumAppend(c.inactive, c.active);
    SumAppend(Delete(c, key).inactive, Delete(c, key).active);
    if i < |c.inactive| {
      SumRemove(c.inactive, i);
    } else if j < |c.active| {
      SumRemove(c.active, j);
    }
  }

  lemma UpdateSum(c: Cache, key: Key, data: Option<Data>)
    ensures Sum(Update(c, key, data).Recency()) == Sum(c.Recency())
  {
    SameSum(Update(c, key, data).Recency(), c.Recency());
  }

  lemma DroppingFits(c: Cache, n: nat)
    requires n <= |c.inactive|
    ensures Sum(Cache(c.inactive[n..], c.active).Recency()) <= Sum(c.Recency())
  {
    hide Sum;
    CutInactive(c, n);
    SumAppend(c.Recency()[..n], c.Recency()[n..]);
    assert c.Recency() == c.Recency()[..n] + c.Recency()[n..];
  }

  lemma DatasNone()
    ensures Datas([]) == []
  {
  }

  lemma DatasOne(es: seq<Entry>, i: nat)
    requires i < |es|
    ensures Datas(es[..i + 1]) == Datas(es[..i]) + [es[i].data]
  {
  }

  lemma SplitMoves<T>(a: seq<T>, b: seq<T>, n: nat)
    requires n <= |b|
    ensures (a + b[..n]) + b[n..] == a + b
  {
  }
}
