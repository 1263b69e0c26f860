/** The node managers of fhash/fhash_core.c: growable slot arrays with slot reuse.

    Keys and values are byte strings; two keys compare equal exactly when they are the same string.
 */
module FhashNode {
  import opened Bytes
  import opened Options

  type Key = seq<byte>
  type Value = seq<byte>

  /** `realSz` is the size of the memory block the slot owns, kept when the slot becomes invalid. */
  datatype Node = Node(realSz: nat, valid: bool, key: Key, value: Value)

  datatype Mgr = Mgr(used: nat, slots: seq<Node>)

  const BLANK := Node(0, false, [], [])
  const EMPTY := Mgr(0, [])
  const ALIGNMENT: nat := 4
  const POINTER_SIZE: nat := 8

  /** FHASH_DATASZ: the block a key and a value need, each with a trailing zero byte. */
  function DataSize(k: Key, v: Value): nat {
    (|k| / ALIGNMENT + 1) * POINTER_SIZE + |v| + 1
  }

  /** _hash_node_set: the block only ever grows. */
  function Filled(node: Node, k: Key, v: Value): Node {
    Node(if node.realSz < DataSize(k, v) then DataSize(k, v) else node.realSz, true, k, v)
  }

  // ------------------------------------------------------------------ what a manager holds

  predicate HasKey(slots: seq<Node>, i: int, k: Key) {
    0 <= i < |slots| && slots[i].valid && slots[i].key == k
  }

  ghost predicate Present(slots: seq<Node>, k: Key) {
    exists i :: HasKey(slots, i, k)
  }

  /** The valid slots hold exactly the pairs of `m`, each key once. */
  ghost predicate Stores(slots: seq<Node>, m: map<Key, Value>) {
    && (forall i :: 0 <= i < |slots| && slots[i].valid ==> slots[i].key in m && m[slots[i].key] == slots[i].value)
    && (forall k :: k in m ==> Present(slots, k))
    && (forall i, j :: 0 <= i < j < |slots| && slots[i].valid && slots[j].valid ==> slots[i].key != slots[j].key)
  }

  ghost function ValidSlots(slots: seq<Node>): set<int> {
    set i | 0 <= i < |slots| && slots[i].valid
  }

  /** A manager's bookkeeping: the slots hold exactly `m`, and `used` counts the keys. */
  ghost predicate Holds(mgr: Mgr, m: map<Key, Value>) {
    Stores(mgr.slots, m) && mgr.used == |m|
  }

  lemma NoneStored(slots: seq<Node>, m: map<Key, Value>)
    requires Stores(slots, m) && forall i :: 0 <= i < |slots| ==> !slots[i].valid
    ensures m == map[]
  {
    forall k ensures k !in m {
      assert k in m ==> Present(slots, k);
    }
  }

  lemma CountOne(slots: seq<Node>, m: map<Key, Value>, i: nat)
    requires Stores(slots, m) && i < |slots| && slots[i].valid
    ensures var rest, m' := slots[i := BLANK], m - {slots[i].key};
      Stores(rest, m') && |m| == |m'| + 1 && |ValidSlots(slots)| == |ValidSlots(rest)| + 1
  {
    StoresRemove(slots, m, i, BLANK);
    assert (m - {slots[i].key}).Keys == m.Keys - {slots[i].key};
    assert ValidSlots(slots) == ValidSlots(slots[i := BLANK]) + {i};
  }

  /** There are as many valid slots as keys. */
  lemma {:induction false} CountValid(slots: seq<Node>, m: map<Key, Value>)
    requires Stores(slots, m)
    ensures |ValidSlots(slots)| == |m|
    decreases |m|
  {
    if i :| 0 <= i < |slots| && slots[i].valid {
      CountOne(slots, m, i);
      CountValid(slots[i := BLANK], m - {slots[i].key});
    } else {
      NoneStored(slots, m);
      assert ValidSlots(slots) == {};
    }
  }

  function Below(n: nat): set<int> {
    if n == 0 then {} else Below(n - 1) + {n - 1}
  }

  lemma {:induction false} BelowIs(n: nat)
    ensures |Below(n)| == n && forall i :: i in Below(n) <==> 0 <= i < n
  {
    if n > 0 {
      BelowIs(n - 1);
    }
  }

  lemma SubsetSize(a: set<int>, b: set<int>)
    requires a <= b
    ensures |a| <= |b| && (|a| == |b| ==> a == b)
  {
    if a != b {
      assert |b - a| > 0;
      assert b == a + (b - a);
    }
  }

  /** The assertions on free slots in the code cannot fail: fewer used than there are means one is free. */
  lemma FreeSlotExists(mgr: Mgr, m: map<Key, Value>)
    requires Holds(mgr, m)
    ensures mgr.used <= |mgr.slots|
    ensures mgr.used < |mgr.slots| <==> exists i :: 0 <= i < |mgr.slots| && !mgr.slots[i].valid
  {
    var all := Below(|mgr.slots|);
    BelowIs(|mgr.slots|);
    CountValid(mgr.slots, m);
    SubsetSize(ValidSlots(mgr.slots), all);
    if forall i :: 0 <= i < |mgr.slots| ==> mgr.slots[i].valid {
      assert ValidSlots(mgr.slots) == all;
    } else {
      var i :| 0 <= i < |mgr.slots| && !mgr.slots[i].valid;
      assert i in all && i !in ValidSlots(mgr.slots);
    }
  }

  /** Storing a new key in a free slot. */
  lemma HoldsAdd(mgr: Mgr, m: map<Key, Value>, i: nat, node: Node)
    requires Holds(mgr, m) && i < |mgr.slots| && !mgr.slots[i].valid && node.valid && node.key !in m
    ensures Holds(Mgr(mgr.used + 1, mgr.slots[i := node]), m[node.key := node.value])
  {
    StoresAdd(mgr.slots, m, i, node);
  }

  lemma StoresAdd(slots: seq<Node>, m: map<Key, Value>, i: nat, node: Node)
    requires Stores(slots, m) && i < |slots| && !slots[i].valid && node.valid && node.key !in m
    ensures Stores(slots[i := node], m[node.key := node.value])
  {
    var slots', m' := slots[i := node], m[node.key := node.value];
    assert HasKey(slots', i, node.key);
    forall k | k in m' ensures Present(slots', k) {
      if k in m {
        assert Present(slots, k);
        var j :| HasKey(slots, j, k);
        assert HasKey(slots', j, k);
      }
    }
  }

  /** Storing again under a key that is there. */
  lemma HoldsUpdate(mgr: Mgr, m: map<Key, Value>, i: nat, node: Node)
    requires Holds(mgr, m) && HasKey(mgr.slots, i, node.key) && node.valid
    ensures Holds(mgr.(slots := mgr.slots[i := node]), m[node.key := node.value])
    ensures node.key in m
  {
    StoresUpdate(mgr.slots, m, i, node);
    assert m[node.key := node.value].Keys == m.Keys;
  }

  lemma StoresUpdate(slots: seq<Node>, m: map<Key, Value>, i: nat, node: Node)
    requires Stores(slots, m) && HasKey(slots, i, node.key) && node.valid
    ensures Stores(slots[i := node], m[node.key := node.value])
    ensures node.key in m
  {
    var slots', m' := slots[i := node], m[node.key := node.value];
    forall k | k in m' ensures Present(slots', k) {
      assert Present(slots, k);
      var j :| HasKey(slots, j, k);
      assert HasKey(slots', j, k);
    }
  }

  /** Taking a key out frees its slot. */
  lemma HoldsRemove(mgr: Mgr, m: map<Key, Value>, i: nat, node: Node)
    requires Holds(mgr, m) && i < |mgr.slots| && mgr.slots[i].valid && !node.valid
    ensures mgr.used > 0 && Holds(Mgr(mgr.used - 1, mgr.slots[i := node]), m - {mgr.slots[i].key})
  {
    StoresRemove(mgr.slots, m, i, node);
    var gone := mgr.slots[i].key;
    assert (m - {gone}).Keys == m.Keys - {gone};
  }

  lemma StoresRemove(slots: seq<Node>, m: map<Key, Value>, i: nat, node: Node)
    requires Stores(slots, m) && i < |slots| && slots[i].valid && !node.valid
    ensures slots[i].key in m && Stores(slots[i := node], m - {slots[i].key})
  {
    var slots', m' := slots[i := node], m - {slots[i].key};
    forall k | k in m' ensures Present(slots', k) {
      assert Present(slots, k);
      var j :| HasKey(slots, j, k);
      assert HasKey(slots', j, k);
    }
  }

  /** Blank slots at the end change nothing. */
  lemma HoldsEnlarge(mgr: Mgr, m: map<Key, Value>, slots: seq<Node>)
    requires Holds(mgr, m) && |slots| >= |mgr.slots| && slots[..|mgr.slots|] == mgr.slots
    requires forall i :: |mgr.slots| <= i < |slots| ==> !slots[i].valid
    ensures Holds(Mgr(mgr.used, slots), m)
  {
    assert forall i :: 0 <= i < |mgr.slots| ==> slots[i] == mgr.slots[i];
    forall k | k in m ensures Present(slots, k) {
      assert Present(mgr.slots, k);
      var j :| HasKey(mgr.slots, j, k);
      assert HasKey(slots, j, k);
    }
  }

  // ------------------------------------------------------------------ scanning

  /** _hash_nodemgr_find on valid slots. */
  method Find(slots: seq<Node>, k: Key) returns (r: Option<nat>)
    ensures r.Some? ==> HasKey(slots, r.value, k) && forall j :: 0 <= j < r.value ==> !HasKey(slots, j, k)
    ensures r.None? ==> forall j :: !HasKey(slots, j, k)
  {
    for i := 0 to |slots|
      invariant forall j :: 0 <= j < i ==> !HasKey(slots, j, k)
    {
      if slots[i].valid && slots[i].key == k {
        return Some(i);
      }
    }
    return None;
  }

  /** _hash_nodemgr_first on invalid slots. */
  method FirstFree(slots: seq<Node>) returns (r: Option<nat>)
    ensures r.Some? ==> IsFirstFree(slots, r.value)
    ensures r.None? ==> forall j :: 0 <= j < |slots| ==> slots[j].valid
  {
    for i := 0 to |slots|
      invariant forall j :: 0 <= j < i ==> slots[j].valid
    {
      if !slots[i].valid {
        return Some(i);
      }
    }
    return None;
  }

  predicate Fits(node: Node, need: nat) { !node.valid && need <= node.realSz }

  /** Slot `i` is the first free one. */
  predicate IsFirstFree(slots: seq<Node>, i: nat) {
    i < |slots| && !slots[i].valid && forall j :: 0 <= j < i ==> slots[j].valid
  }

  /** Slot `i` is the one to reuse for `need` bytes: of the free slots that are large enough the first of the
      smallest ones, or the first free slot if none is large enough. */
  ghost predicate IsBestFree(slots: seq<Node>, need: nat, i: nat) {
    if exists j :: 0 <= j < |slots| && Fits(slots[j], need) then
      && i < |slots| && Fits(slots[i], need)
      && (forall j :: 0 <= j < |slots| && Fits(slots[j], need) ==> slots[i].realSz <= slots[j].realSz)
      && (forall j :: 0 <= j < i && Fits(slots[j], need) ==> slots[i].realSz < slots[j].realSz)
    else IsFirstFree(slots, i)
  }

  /** _hash_nodemgr_applicable_node: the free slot that wastes least, else the first free one. */
  method BestFree(slots: seq<Node>, need: nat) returns (r: Option<nat>)
    ensures r.None? <==> forall j :: 0 <= j < |slots| ==> slots[j].valid
    ensures r.Some? ==> r.value < |slots| && !slots[r.value].valid && IsBestFree(slots, need, r.value)
  {
    var best: Option<nat> := None;
    var lowestWaste := 0;
    for i := 0 to |slots|
      invariant best.None? ==> forall j :: 0 <= j < i ==> !Fits(slots[j], need)
      invariant best.Some? ==>
        && best.value < i && Fits(slots[best.value], need) && lowestWaste == slots[best.value].realSz - need
        && (forall j :: 0 <= j < i && Fits(slots[j], need) ==> slots[best.value].realSz <= slots[j].realSz)
        && (forall j :: 0 <= j < best.value && Fits(slots[j], need) ==> slots[best.value].realSz < slots[j].realSz)
    {
      if !slots[i].valid && need <= slots[i].realSz {
        var waste := slots[i].realSz - need;
        if best.None? || waste < lowestWaste {
          best, lowestWaste := Some(i), waste;
        }
      }
    }
    if best.Some? {
      return best;
    }
    r := FirstFree(slots);
  }

  /** _hash_nodemgr_next: the first valid slot from `from` on. */
  function FirstValid(slots: seq<Node>, from: nat): nat
    decreases |slots| - from
  {
    if from >= |slots| || slots[from].valid then from else FirstValid(slots, from + 1)
  }

  lemma {:induction false} FirstValidIs(slots: seq<Node>, from: nat)
    ensures from <= FirstValid(slots, from)
    ensures FirstValid(slots, from) < |slots| ==> slots[FirstValid(slots, from)].valid
    ensures forall i :: from <= i < FirstValid(slots, from) && i < |slots| ==> !slots[i].valid
    decreases |slots| - from
  {
    if from < |slots| && !slots[from].valid {
      FirstValidIs(slots, from + 1);
    }
  }

  method ScanValid(slots: seq<Node>, from: nat) returns (i: nat)
    ensures i == FirstValid(slots, from)
  {
    i := from;
    while i < |slots| && !slots[i].valid
      invariant FirstValid(slots, i) == FirstValid(slots, from)
    {
      i := i + 1;
    }
  }

  // ------------------------------------------------------------------ growing and filling

  function Enlarged(slots: seq<Node>): seq<Node> {
    slots + seq(if slots == [] then 1 else |slots|, i => BLANK)
  }

  /** Slot `i` takes the pair, in the block it has or in a larger one, and nothing else changes. */
  predicate Puts(mgr: Mgr, i: nat, k: Key, v: Value, r: Mgr) {
    && i < |mgr.slots| == |r.slots| && r.slots == mgr.slots[i := r.slots[i]]
    && r.slots[i].key == k && r.slots[i].value == v && r.slots[i].valid
    && r.slots[i].realSz >= mgr.slots[i].realSz
    && (Fits(mgr.slots[i], DataSize(k, v)) ==> r.slots[i].realSz == mgr.slots[i].realSz)
  }

  /** The block of a slot holds what was put into it, whatever it held before: the key area ends behind the key
      and its zero byte, and behind that area lie the value and its own. */
  lemma BlockHolds(node: Node, k: Key, v: Value)
    ensures var area := (|k| / ALIGNMENT + 1) * POINTER_SIZE;
      && |k| + 1 <= area && area % POINTER_SIZE == 0
      && area + |v| + 1 <= Filled(node, k, v).realSz && node.realSz <= Filled(node, k, v).realSz
  {
  }

  /** _hash_nodemgr_add: the slots double only when all are used; otherwise a free slot is reused. */
  method Add(mgr: Mgr, k: Key, v: Value, ghost m: map<Key, Value>) returns (r: Mgr)
    requires Holds(mgr, m) && k !in m
    ensures Holds(r, m[k := v])
    ensures |r.slots| == if mgr.used < |mgr.slots| then |mgr.slots| else if mgr.slots == [] then 1 else 2 * |mgr.slots|
    ensures mgr.used < |mgr.slots| ==>
              exists i: nat :: IsBestFree(mgr.slots, DataSize(k, v), i) && Puts(mgr, i, k, v, r)
  {
    FreeSlotExists(mgr, m);
    if mgr.used == |mgr.slots| {
      var slots := Enlarged(mgr.slots);
      HoldsEnlarge(mgr, m, slots);
      HoldsAdd(Mgr(mgr.used, slots), m, |mgr.slots|, Filled(BLANK, k, v));
      return Mgr(mgr.used + 1, slots[|mgr.slots| := Filled(BLANK, k, v)]);
    }
    var at := BestFree(mgr.slots, DataSize(k, v));
    var node := Filled(mgr.slots[at.value], k, v);
    HoldsAdd(mgr, m, at.value, node);
    return Mgr(mgr.used + 1, mgr.slots[at.value := node]);
  }

  /** _hash_nodemgr_add_node: the node itself moves in, with its block. */
  method AddNode(mgr: Mgr, node: Node, ghost m: map<Key, Value>) returns (r: Mgr)
    requires Holds(mgr, m) && node.valid && node.key !in m
    ensures Holds(r, m[node.key := node.value]) && node in r.slots
    ensures |r.slots| == if mgr.used < |mgr.slots| then |mgr.slots| else if mgr.slots == [] then 1 else 2 * |mgr.slots|
    ensures mgr.used < |mgr.slots| ==> exists i: nat :: IsFirstFree(mgr.slots, i) && r.slots == mgr.slots[i := node]
  {
    FreeSlotExists(mgr, m);
    if mgr.used == |mgr.slots| {
      var slots := Enlarged(mgr.slots);
      HoldsEnlarge(mgr, m, slots);
      HoldsAdd(Mgr(mgr.used, slots), m, |mgr.slots|, node);
      r := Mgr(mgr.used + 1, slots[|mgr.slots| := node]);
      assert r.slots[|mgr.slots|] == node;
      return;
    }
    var at := FirstFree(mgr.slots);
    assert IsFirstFree(mgr.slots, at.value);
    HoldsAdd(mgr, m, at.value, node);
    r := Mgr(mgr.used + 1, mgr.slots[at.value := node]);
    assert r.slots[at.value] == node;
  }
}
