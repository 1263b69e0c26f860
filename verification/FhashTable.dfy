/** The bucketed tables of fhash/fhash_core.c: one node manager per index, picked by hash modulo index size. */
module FhashTable {
  import opened Options
  import opened FhashNode

  /** The pairs that belong in bucket `b` of `n`. */
  ghost function Part(m: map<Key, Value>, hash: Key -> nat, n: nat, b: nat): map<Key, Value>
    requires n > 0
  {
    map k | k in m && hash(k) % n == b :: m[k]
  }

  /** Every key is in the bucket of its hash, once, and nothing else is anywhere. */
  ghost predicate TableHolds(mgrs: seq<Mgr>, hash: Key -> nat, m: map<Key, Value>) {
    |mgrs| > 0 && forall b :: 0 <= b < |mgrs| ==> Holds(mgrs[b], Part(m, hash, |mgrs|, b))
  }

  lemma BucketHolds(mgrs: seq<Mgr>, hash: Key -> nat, m: map<Key, Value>, b: nat)
    requires TableHolds(mgrs, hash, m) && b < |mgrs|
    ensures Holds(mgrs[b], Part(m, hash, |mgrs|, b))
  {
  }

  /** One bucket and its part of the map may change when all other parts stay. */
  lemma OneBucketChanges(mgrs: seq<Mgr>, hash: Key -> nat, m: map<Key, Value>, b: nat, mgr: Mgr, m': map<Key, Value>)
    requires TableHolds(mgrs, hash, m) && b < |mgrs| && Holds(mgr, Part(m', hash, |mgrs|, b))
    requires forall c :: c != b ==> Part(m', hash, |mgrs|, c) == Part(m, hash, |mgrs|, c)
    ensures TableHolds(mgrs[b := mgr], hash, m')
  {
    var mgrs' := mgrs[b := mgr];
    forall c | 0 <= c < |mgrs'| ensures Holds(mgrs'[c], Part(m', hash, |mgrs'|, c)) {
      BucketHolds(mgrs, hash, m, c);
    }
  }

  lemma PartInsert(m: map<Key, Value>, hash: Key -> nat, n: nat, k: Key, v: Value)
    requires n > 0
    ensures Part(m[k := v], hash, n, hash(k) % n) == Part(m, hash, n, hash(k) % n)[k := v]
    ensures forall b :: b != hash(k) % n ==> Part(m[k := v], hash, n, b) == Part(m, hash, n, b)
  {
  }

  lemma PartDelete(m: map<Key, Value>, hash: Key -> nat, n: nat, k: Key)
    requires n > 0
    ensures Part(m - {k}, hash, n, hash(k) % n) == Part(m, hash, n, hash(k) % n) - {k}
    ensures forall b :: b != hash(k) % n ==> Part(m - {k}, hash, n, b) == Part(m, hash, n, b)
  {
  }

  lemma TableInsert(mgrs: seq<Mgr>, hash: Key -> nat, m: map<Key, Value>, k: Key, v: Value, mgr: Mgr)
    requires TableHolds(mgrs, hash, m)
    requires Holds(mgr, Part(m, hash, |mgrs|, hash(k) % |mgrs|)[k := v])
    ensures TableHolds(mgrs[hash(k) % |mgrs| := mgr], hash, m[k := v])
  {
    PartInsert(m, hash, |mgrs|, k, v);
    OneBucketChanges(mgrs, hash, m, hash(k) % |mgrs|, mgr, m[k := v]);
  }

  lemma TableDelete(mgrs: seq<Mgr>, hash: Key -> nat, m: map<Key, Value>, k: Key, mgr: Mgr)
    requires TableHolds(mgrs, hash, m)
    requires Holds(mgr, Part(m, hash, |mgrs|, hash(k) % |mgrs|) - {k})
    ensures TableHolds(mgrs[hash(k) % |mgrs| := mgr], hash, m - {k})
  {
    PartDelete(m, hash, |mgrs|, k);
    OneBucketChanges(mgrs, hash, m, hash(k) % |mgrs|, mgr, m - {k});
  }

  // ------------------------------------------------------------------ sizes

  function SumUsed(mgrs: seq<Mgr>): nat {
    if mgrs == [] then 0 else SumUsed(mgrs[..|mgrs| - 1]) + mgrs[|mgrs| - 1].used
  }

  ghost function Upto(m: map<Key, Value>, hash: Key -> nat, n: nat, b: nat): map<Key, Value>
    requires n > 0
  {
    map k | k in m && hash(k) % n < b :: m[k]
  }

  lemma UptoNext(m: map<Key, Value>, hash: Key -> nat, n: nat, b: nat)
    requires n > 0
    ensures |Upto(m, hash, n, b + 1)| == |Upto(m, hash, n, b)| + |Part(m, hash, n, b)|
  {
    var lower, part, both := Upto(m, hash, n, b), Part(m, hash, n, b), Upto(m, hash, n, b + 1);
    assert both.Keys == lower.Keys + part.Keys && lower.Keys !! part.Keys;
    assert |both.Keys| == |lower.Keys| + |part.Keys|;
  }

  lemma {:induction false} SumUptoIsSize(mgrs: seq<Mgr>, hash: Key -> nat, m: map<Key, Value>, b: nat)
    requires TableHolds(mgrs, hash, m) && b <= |mgrs|
    ensures SumUsed(mgrs[..b]) == |Upto(m, hash, |mgrs|, b)|
  {
    if b > 0 {
      SumUptoIsSize(mgrs, hash, m, b - 1);
      assert mgrs[..b][..b - 1] == mgrs[..b - 1];
      UptoNext(m, hash, |mgrs|, b - 1);
      BucketHolds(mgrs, hash, m, b - 1);
    }
  }

  /** The used counters of the buckets add up to the number of keys. */
  lemma SumIsSize(mgrs: seq<Mgr>, hash: Key -> nat, m: map<Key, Value>)
    requires TableHolds(mgrs, hash, m)
    ensures SumUsed(mgrs) == |m|
  {
    SumUptoIsSize(mgrs, hash, m, |mgrs|);
    assert mgrs[..|mgrs|] == mgrs;
    assert Upto(m, hash, |mgrs|, |mgrs|) == m;
  }

  // ------------------------------------------------------------------ positions

  /** Slot `i` of bucket `b` holds key `k`. */
  predicate At(mgrs: seq<Mgr>, b: int, i: int, k: Key) {
    0 <= b < |mgrs| && HasKey(mgrs[b].slots, i, k)
  }

  lemma KeyPosition(mgrs: seq<Mgr>, hash: Key -> nat, m: map<Key, Value>, k: Key) returns (b: nat, i: nat)
    requires TableHolds(mgrs, hash, m) && k in m
    ensures At(mgrs, b, i, k) && b == hash(k) % |mgrs| && mgrs[b].slots[i].value == m[k]
  {
    b := hash(k) % |mgrs|;
    BucketHolds(mgrs, hash, m, b);
    assert k in Part(m, hash, |mgrs|, b);
    assert Present(mgrs[b].slots, k);
    var j :| HasKey(mgrs[b].slots, j, k);
    i := j;
  }

  lemma PositionKey(mgrs: seq<Mgr>, hash: Key -> nat, m: map<Key, Value>, b: nat, i: nat, k: Key)
    requires TableHolds(mgrs, hash, m) && At(mgrs, b, i, k)
    ensures k in m && m[k] == mgrs[b].slots[i].value && hash(k) % |mgrs| == b
  {
    BucketHolds(mgrs, hash, m, b);
  }

  lemma OnePosition(mgrs: seq<Mgr>, hash: Key -> nat, m: map<Key, Value>, b: nat, i: nat, c: nat, j: nat, k: Key)
    requires TableHolds(mgrs, hash, m) && At(mgrs, b, i, k) && At(mgrs, c, j, k)
    ensures b == c && i == j
  {
    PositionKey(mgrs, hash, m, b, i, k);
    PositionKey(mgrs, hash, m, c, j, k);
    BucketHolds(mgrs, hash, m, b);
  }

  // ------------------------------------------------------------------ what iterators rely on

  ghost predicate SlotsStable(x: seq<Node>, y: seq<Node>) {
    |x| == |y| && forall j :: 0 <= j < |x| && y[j].valid ==> x[j].valid && x[j].key == y[j].key
  }

  /** No slot moved and no key came in; values may have changed and keys may have gone. */
  ghost predicate Stable(a: seq<Mgr>, b: seq<Mgr>) {
    |a| == |b| && forall i :: 0 <= i < |a| ==> SlotsStable(a[i].slots, b[i].slots)
  }

  lemma StableTrans(a: seq<Mgr>, b: seq<Mgr>, c: seq<Mgr>)
    requires Stable(a, b) && Stable(b, c)
    ensures Stable(a, c)
  {
    forall i | 0 <= i < |a| ensures SlotsStable(a[i].slots, c[i].slots) {
      assert SlotsStable(a[i].slots, b[i].slots) && SlotsStable(b[i].slots, c[i].slots);
    }
  }

  lemma StableBucket(mgrs: seq<Mgr>, b: nat, mgr: Mgr)
    requires b < |mgrs| && SlotsStable(mgrs[b].slots, mgr.slots)
    ensures Stable(mgrs, mgrs[b := mgr])
  {
  }

  /** The bucket of a key after its node at slot `i` has been replaced. */
  function Rewritten(mgrs: seq<Mgr>, b: nat, i: nat, used: nat, node: Node): seq<Mgr>
    requires b < |mgrs| && i < |mgrs[b].slots|
  {
    mgrs[b := Mgr(used, mgrs[b].slots[i := node])]
  }

  lemma TableOverwrite(mgrs: seq<Mgr>, hash: Key -> nat, m: map<Key, Value>, b: nat, i: nat, node: Node)
    requires TableHolds(mgrs, hash, m) && b == hash(node.key) % |mgrs|
    requires HasKey(mgrs[b].slots, i, node.key) && node.valid
    ensures TableHolds(Rewritten(mgrs, b, i, mgrs[b].used, node), hash, m[node.key := node.value])
    ensures Stable(mgrs, Rewritten(mgrs, b, i, mgrs[b].used, node))
    ensures node.key in m && |m[node.key := node.value]| == |m|
  {
    var part := Part(m, hash, |mgrs|, b);
    BucketHolds(mgrs, hash, m, b);
    HoldsUpdate(mgrs[b], part, i, node);
    var mgr := mgrs[b].(slots := mgrs[b].slots[i := node]);
    TableInsert(mgrs, hash, m, node.key, node.value, mgr);
    StableBucket(mgrs, b, mgr);
    assert m[node.key := node.value].Keys == m.Keys;
  }

  lemma TableFree(mgrs: seq<Mgr>, hash: Key -> nat, m: map<Key, Value>, b: nat, i: nat, k: Key)
    requires TableHolds(mgrs, hash, m) && b == hash(k) % |mgrs| && HasKey(mgrs[b].slots, i, k)
    ensures mgrs[b].used > 0
    ensures TableHolds(Rewritten(mgrs, b, i, mgrs[b].used - 1, mgrs[b].slots[i].(valid := false)), hash, m - {k})
    ensures Stable(mgrs, Rewritten(mgrs, b, i, mgrs[b].used - 1, mgrs[b].slots[i].(valid := false)))
    ensures k in m && |m - {k}| == |m| - 1
  {
    var node := mgrs[b].slots[i].(valid := false);
    var part := Part(m, hash, |mgrs|, b);
    BucketHolds(mgrs, hash, m, b);
    HoldsRemove(mgrs[b], part, i, node);
    var mgr := Mgr(mgrs[b].used - 1, mgrs[b].slots[i := node]);
    TableDelete(mgrs, hash, m, k, mgr);
    StableBucket(mgrs, b, mgr);
    assert k in m && (m - {k}).Keys == m.Keys - {k};
  }

  // ------------------------------------------------------------------ the table

  class Table {
    const hash: Key -> nat
    var slotsUsed: nat
    var mgrs: seq<Mgr>
    ghost var entries: map<Key, Value>

    ghost predicate Valid()
      reads this
    {
      TableHolds(mgrs, hash, entries) && slotsUsed == |entries|
    }

    constructor (hash: Key -> nat, indexSize: nat)
      requires indexSize > 0
      ensures Valid() && this.hash == hash && |mgrs| == indexSize && entries == map[]
    {
      this.hash := hash;
      slotsUsed := 0;
      mgrs := seq(indexSize, i => EMPTY);
      entries := map[];
      new;
      forall b | 0 <= b < |mgrs| ensures Holds(mgrs[b], Part(entries, hash, |mgrs|, b)) {
        assert Part(entries, hash, |mgrs|, b) == map[];
      }
    }

    function Index(k: Key): (b: nat)
      requires |mgrs| > 0
      reads this
      ensures b < |mgrs|
    {
      hash(k) % |mgrs|
    }

    ghost function Bucket(k: Key): map<Key, Value>
      requires |mgrs| > 0
      reads this
    {
      Part(entries, hash, |mgrs|, Index(k))
    }

    /** Where a key sits, or that it is nowhere in the table. */
    method Locate(k: Key) returns (r: Option<nat>)
      requires Valid()
      ensures r.Some? <==> k in entries
      ensures r.Some? ==> HasKey(mgrs[Index(k)].slots, r.value, k) && mgrs[Index(k)].slots[r.value].value == entries[k]
    {
      r := Find(mgrs[Index(k)].slots, k);
      BucketHolds(mgrs, hash, entries, Index(k));
      if k in entries {
        assert k in Bucket(k);
        assert Present(mgrs[Index(k)].slots, k);
      }
    }

    /** Overwrite the node at a known place with another of the same key. */
    method Overwrite(i: nat, node: Node)
      requires Valid() && node.valid && HasKey(mgrs[Index(node.key)].slots, i, node.key)
      modifies this`mgrs, this`entries
      ensures Valid() && entries == old(entries)[node.key := node.value] && Stable(old(mgrs), mgrs)
      ensures node.key in old(entries)
    {
      hide Stores, Stable, Rewritten, Holds;
      var b := Index(node.key);
      TableOverwrite(mgrs, hash, entries, b, i, node);
      mgrs, entries := Rewritten(mgrs, b, i, mgrs[b].used, node), entries[node.key := node.value];
    }

    method Set(k: Key, v: Value)
      requires Valid()
      modifies this`mgrs, this`entries, this`slotsUsed
      ensures Valid() && entries == old(entries)[k := v] && |mgrs| == |old(mgrs)|
    {
      hide Stores;
      var b := Index(k);
      var at := Locate(k);
      if at.None? {
        BucketHolds(mgrs, hash, entries, b);
        var mgr := Add(mgrs[b], k, v, Bucket(k));
        TableInsert(mgrs, hash, entries, k, v, mgr);
        mgrs, entries, slotsUsed := mgrs[b := mgr], entries[k := v], slotsUsed + 1;
      } else {
        Overwrite(at.value, Filled(mgrs[b].slots[at.value], k, v));
      }
    }

    method SetNode(node: Node)
      requires Valid() && node.valid
      modifies this`mgrs, this`entries, this`slotsUsed
      ensures Valid() && entries == old(entries)[node.key := node.value] && |mgrs| == |old(mgrs)|
    {
      hide Stores;
      var b := Index(node.key);
      var at := Locate(node.key);
      if at.None? {
        BucketHolds(mgrs, hash, entries, b);
        var mgr := AddNode(mgrs[b], node, Bucket(node.key));
        TableInsert(mgrs, hash, entries, node.key, node.value, mgr);
        mgrs, entries, slotsUsed := mgrs[b := mgr], entries[node.key := node.value], slotsUsed + 1;
      } else {
        Overwrite(at.value, node);
      }
    }

    /** Update in place only; no slot is taken or moved. */
    method SetOnly(k: Key, v: Value) returns (success: bool)
      requires Valid()
      modifies this`mgrs, this`entries
      ensures Valid() && Stable(old(mgrs), mgrs)
      ensures success <==> k in old(entries)
      ensures entries == if success then old(entries)[k := v] else old(entries)
    {
      var at := Locate(k);
      if at.None? {
        return false;
      }
      Overwrite(at.value, Filled(mgrs[Index(k)].slots[at.value], k, v));
      return true;
    }

    method Get(k: Key) returns (r: Option<Value>)
      requires Valid()
      ensures r == if k in entries then Some(entries[k]) else None
    {
      var at := Locate(k);
      r := if at.None? then None else Some(mgrs[Index(k)].slots[at.value].value);
    }

    /** Invalidate the slot of a key; the slot keeps its memory. */
    method Free(k: Key, i: nat)
      requires Valid() && HasKey(mgrs[Index(k)].slots, i, k)
      modifies this`mgrs, this`entries, this`slotsUsed
      ensures Valid() && entries == old(entries) - {k} && Stable(old(mgrs), mgrs)
    {
      hide Stores, Stable, Rewritten, Holds;
      var b := Index(k);
      TableFree(mgrs, hash, entries, b, i, k);
      mgrs := Rewritten(mgrs, b, i, mgrs[b].used - 1, mgrs[b].slots[i].(valid := false));
      entries, slotsUsed := entries - {k}, slotsUsed - 1;
    }

    method Del(k: Key)
      requires Valid()
      modifies this`mgrs, this`entries, this`slotsUsed
      ensures Valid() && entries == old(entries) - {k} && Stable(old(mgrs), mgrs)
    {
      var at := Locate(k);
      if at.None? {
        return;
      }
      Free(k, at.value);
    }

    /** The caller gets as much of the value as its buffer of `room` bytes takes. */
    method FetchAndDel(k: Key, room: nat) returns (r: Option<Value>)
      requires Valid()
      modifies this`mgrs, this`entries, this`slotsUsed
      ensures Valid() && entries == old(entries) - {k} && Stable(old(mgrs), mgrs)
      ensures r.Some? <==> k in old(entries)
      ensures r.Some? ==> r.value <= old(entries)[k]
      ensures r.Some? ==> |r.value| == if |old(entries)[k]| > room then room else |old(entries)[k]|
    {
      var at := Locate(k);
      if at.None? {
        return None;
      }
      var v := mgrs[Index(k)].slots[at.value].value;
      r := Some(if |v| > room then v[..room] else v);
      Free(k, at.value);
    }

    /** _hash_node_init on a slot that rehashing has moved out; the table is not used again as a table. */
    method Blank(b: nat, i: nat)
      requires b < |mgrs| && i < |mgrs[b].slots|
      modifies this`mgrs
      ensures mgrs == old(mgrs)[b := old(mgrs)[b].(slots := old(mgrs)[b].slots[i := BLANK])]
    {
      mgrs := mgrs[b := mgrs[b].(slots := mgrs[b].slots[i := BLANK])];
    }
  }
}
