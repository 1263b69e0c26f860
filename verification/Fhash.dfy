/** The hash of fhash/fhash_core.c: a table, the iterators on it, and the additions delayed on their account. */
module Fhash {
  import opened Options
  import opened FhashNode
  import opened FhashTable
  import opened FhashIter

  const UINT32_MAX: nat := 0xffff_ffff
  const AUTO_REHASH_THRESHOLD: nat := 4
  const DEFAULT_TABLE_SIZE: nat := 10

  /** FHASH_REHASH_SIZE. */
  function RehashSize(indexSize: nat): nat {
    if indexSize <= UINT32_MAX / 2 then indexSize * 2 else UINT32_MAX
  }

  /** The index size _hash_try_rehash leaves behind when nothing forbids rehashing. */
  function Grown(indexSize: nat, slots: nat): nat
    requires indexSize > 0
  {
    if indexSize != UINT32_MAX && slots / indexSize > AUTO_REHASH_THRESHOLD then RehashSize(indexSize) else indexSize
  }

  /** How many nodes a change of index size moves: all of them, if it happens. */
  function Moves(index: nat, index': nat, slots: nat): nat { if index' != index then slots else 0 }

  /** fhash_iter: a cursor, and the node it stopped at last. */
  class Iter {
    var cursor: Cursor
    var node: Option<Pos>

    constructor ()
      ensures cursor == Cursor(0, 0) && node == None
    {
      cursor, node := Cursor(0, 0), None;
    }
  }

  class Fhash {
    const hash: Key -> nat
    const autoRehash: bool
    var iterRefs: nat
    var rehashing: bool
    var performing: bool
    var current: Table
    var delayed: Mgr
    ghost var pending: map<Key, Value>
    ghost var moved: nat  // nodes moved by all rehashes so far

    ghost predicate Valid()
      reads this, current
    {
      && current.Valid() && current.hash == hash && |current.mgrs| <= UINT32_MAX
      && Holds(delayed, pending)
      && pending.Keys !! current.entries.Keys
      && (iterRefs == 0 ==> pending == map[])
      && !rehashing && !performing
    }

    /** What a user of the hash sees: the table's pairs and the delayed ones. */
    ghost function View(): map<Key, Value>
      reads this, current
    {
      current.entries + pending
    }

    constructor (initSize: nat, hash: Key -> nat, autoRehash: bool)
      requires initSize <= UINT32_MAX
      ensures Valid() && fresh(current) && View() == map[] && iterRefs == 0 && this.autoRehash == autoRehash
      ensures moved == 0 && |current.mgrs| == if initSize == 0 then DEFAULT_TABLE_SIZE else initSize
    {
      this.hash, this.autoRehash := hash, autoRehash;
      iterRefs, rehashing, performing := 0, false, false;
      delayed, pending, moved := EMPTY, map[], 0;
      current := new Table(hash, if initSize == 0 then DEFAULT_TABLE_SIZE else initSize);
    }

    // ---------------------------------------------------------------- set, get, delete

    /** An empty key or value is ignored.  Without iterators the pair goes into the table, which may then be
        rehashed; with iterators a known key is updated in place and a new one is delayed. */
    method Set(k: Key, v: Value)
      requires Valid()
      modifies this, current
      ensures Valid() && iterRefs == old(iterRefs) && (current == old(current) || fresh(current))
      ensures View() == if k == [] || v == [] then old(View()) else old(View())[k := v]
      ensures k == [] || v == [] ==> unchanged(this) && unchanged(current)
      ensures old(iterRefs) > 0 && k != [] && v != [] ==>
        current == old(current) && Stable(old(current.mgrs), current.mgrs) && moved == old(moved)
      ensures old(iterRefs) > 0 && k != [] && v != [] && k !in old(current.entries) ==>
        current.entries == old(current.entries) && pending == old(pending)[k := v]
      ensures old(iterRefs) == 0 && k != [] && v != [] ==>
        && |current.mgrs| == (if autoRehash then Grown(old(|current.mgrs|), |current.entries|) else old(|current.mgrs|))
        && moved == old(moved) + Moves(old(|current.mgrs|), |current.mgrs|, |current.entries|)
    {
      hide Stores, TableHolds;
      if k == [] || v == [] {
        return;
      }
      if iterRefs > 0 {
        SetShared(k, v);
      } else {
        SetAlone(k, v);
      }
    }

    /** fhash_set while iterators are alive. */
    method SetShared(k: Key, v: Value)
      requires Valid() && iterRefs > 0
      modifies this`delayed, this`pending, current`mgrs, current`entries
      ensures Valid() && View() == old(View())[k := v] && Stable(old(current.mgrs), current.mgrs)
      ensures if k in old(current.entries) then pending == old(pending)
              else current.entries == old(current.entries) && pending == old(pending)[k := v]
    {
      hide TableHolds, Stores;
      ghost var e, m := current.entries, pending;
      var success := current.SetOnly(k, v);
      if success {
        SetLeft(e, m, k, v);
      } else {
        SetDelay(k, v);
        SetRight(e, m, k, v);
      }
    }

    /** fhash_set without iterators. */
    method SetAlone(k: Key, v: Value)
      requires Valid() && iterRefs == 0
      modifies this, current
      ensures Valid() && iterRefs == 0 && (current == old(current) || fresh(current))
      ensures View() == old(View())[k := v]
      ensures |current.mgrs| ==
                if autoRehash then Grown(old(|current.mgrs|), |current.entries|) else old(|current.mgrs|)
      ensures moved == old(moved) + Moves(old(|current.mgrs|), |current.mgrs|, |current.entries|)
    {
      hide TableHolds, Stores, Grown;
      SetLeft(current.entries, pending, k, v);
      current.Set(k, v);
      assert Valid();
      if autoRehash {
        var _ := TryRehash();
      }
    }

    /** _hash_set_delay. */
    method SetDelay(k: Key, v: Value)
      requires Holds(delayed, pending)
      modifies this`delayed, this`pending
      ensures Holds(delayed, pending) && pending == old(pending)[k := v]
    {
      var at := Find(delayed.slots, k);
      if at.None? {
        assert k in pending ==> Present(delayed.slots, k);
        delayed := Add(delayed, k, v, pending);
      } else {
        var node := Filled(delayed.slots[at.value], k, v);
        HoldsUpdate(delayed, pending, at.value, node);
        delayed := delayed.(slots := delayed.slots[at.value := node]);
      }
      pending := pending[k := v];
    }

    method Get(k: Key) returns (r: Option<Value>)
      requires Valid()
      ensures r == if k != [] && k in View() then Some(View()[k]) else None
    {
      if k == [] {
        return None;
      }
      r := current.Get(k);
      if r.Some? {
        return;
      }
      var at := Find(delayed.slots, k);
      if k in pending {
        assert Present(delayed.slots, k);
      }
      r := if at.None? then None else Some(delayed.slots[at.value].value);
    }

    /** Only the table is searched: a key that is still delayed stays. */
    method Del(k: Key)
      requires Valid()
      modifies current
      ensures Valid() && pending == old(pending) && current == old(current)
      ensures current.entries == if k == [] then old(current.entries) else old(current.entries) - {k}
      ensures k != [] ==> (View() == old(View()) - {k} <==> k !in pending)
      ensures Stable(old(current.mgrs), current.mgrs)
    {
      StableRefl(current.mgrs);
      if k == [] {
        return;
      }
      DeletedIffNotDelayed(current.entries, pending, k);
      current.Del(k);
    }

    method FetchAndDel(k: Key, room: nat) returns (r: Option<Value>)
      requires Valid()
      modifies current
      ensures Valid() && pending == old(pending) && current == old(current)
      ensures current.entries == if k == [] then old(current.entries) else old(current.entries) - {k}
      ensures Stable(old(current.mgrs), current.mgrs)
      ensures r.Some? <==> k != [] && room > 0 && k in old(current.entries)
      ensures r.Some? ==> r.value <= old(current.entries)[k]
      ensures r.Some? ==> |r.value| == if |old(current.entries)[k]| > room then room else |old(current.entries)[k]|
    {
      if k == [] || room == 0 {
        Del(k);
        return None;
      }
      r := current.FetchAndDel(k, room);
    }

    // ---------------------------------------------------------------- iterators

    method IterNew() returns (it: Iter)
      modifies this`iterRefs
      ensures fresh(it) && it.cursor == Cursor(0, 0)
      ensures iterRefs == old(iterRefs) + 1 && (old(Valid()) ==> Valid())
    {
      iterRefs := iterRefs + 1;
      it := new Iter();
    }

    /** _hash_tbl_next: bucket by bucket from the cursor on. */
    method Next(it: Iter) returns (r: Option<Node>)
      modifies it
      ensures it.node == NextPos(current.mgrs, old(it.cursor)).0
      ensures it.cursor == NextPos(current.mgrs, old(it.cursor)).1
      ensures r.Some? <==> it.node.Some?
      ensures r.Some? ==> ValidAt(current.mgrs, it.node.value.b, it.node.value.i)
      ensures r.Some? ==> r.value == current.mgrs[it.node.value.b].slots[it.node.value.i]
    {
      ghost var start := it.cursor;
      NextPosIs(current.mgrs, start);
      var c := it.cursor;
      while c.index < |current.mgrs|
        invariant NextPos(current.mgrs, c) == NextPos(current.mgrs, start)
        invariant it.cursor == start
        decreases |current.mgrs| - c.index
      {
        var slots := current.mgrs[c.index].slots;
        var i := ScanValid(slots, c.slot);
        if i < |slots| {
          it.cursor, it.node := Cursor(c.index, i + 1), Some(Pos(c.index, i));
          return Some(slots[i]);
        }
        c := Cursor(c.index + 1, 0);
      }
      it.cursor, it.node := c, None;
      return None;
    }

    /** The last iterator to go merges the delayed additions into the table. */
    method IterRelease()
      requires Valid() && iterRefs > 0
      modifies this, current
      ensures Valid() && iterRefs == old(iterRefs) - 1 && (current == old(current) || fresh(current))
      ensures View() == old(View())
      ensures old(iterRefs) == 1 ==> pending == map[] && current.entries == old(View())
      ensures old(iterRefs) > 1 ==> current == old(current) && current.mgrs == old(current.mgrs) && moved == old(moved)
      ensures old(iterRefs) == 1 ==>
        && |current.mgrs| == (if autoRehash then Grown(old(|current.mgrs|), |current.entries|) else old(|current.mgrs|))
        && moved == old(moved) + Moves(old(|current.mgrs|), |current.mgrs|, |current.entries|)
    {
      hide TableHolds, Stores, Grown;
      iterRefs := iterRefs - 1;
      if iterRefs > 0 {
        return;
      }
      PerformActions();
      NothingRight(current.entries);
      assert Valid() && View() == old(View());
      if autoRehash {
        var _ := TryRehash();
      }
    }

    /** One delayed node goes into the table and leaves a blank slot behind. */
    method MergeSlot(i: nat, ghost view: map<Key, Value>)
      requires Holds(delayed, pending) && i < |delayed.slots| && delayed.slots[i].valid
      requires current.Valid() && Merging(current.entries, pending, view)
      modifies this`delayed, this`pending, current
      ensures current.Valid() && Merging(current.entries, pending, view) && |current.mgrs| == |old(current.mgrs)|
      ensures Holds(delayed, pending) && delayed.slots == old(delayed.slots)[i := BLANK]
    {
      hide TableHolds, Stores, Merging;
      var node := delayed.slots[i];
      MergeOne(delayed, pending, i, current.entries, view);
      current.SetNode(node);
      delayed := Mgr(delayed.used - 1, delayed.slots[i := BLANK]);
      pending := pending - {node.key};
    }

    /** The loop of _hash_perform_actions. */
    method MergeAll(ghost view: map<Key, Value>)
      requires current.Valid() && Holds(delayed, pending) && Merging(current.entries, pending, view)
      modifies this`delayed, this`pending, current
      ensures current.Valid() && |current.mgrs| == |old(current.mgrs)| && Merging(current.entries, pending, view)
      ensures Holds(delayed, pending) && forall j :: 0 <= j < |delayed.slots| ==> !delayed.slots[j].valid
    {
      hide Holds, TableHolds, Merging;
      var i := 0;
      while i < |delayed.slots|
        invariant i <= |delayed.slots| && Holds(delayed, pending)
        invariant forall j :: 0 <= j < i ==> !delayed.slots[j].valid
        invariant current.Valid() && |current.mgrs| == |old(current.mgrs)|
        invariant Merging(current.entries, pending, view)
        decreases |delayed.slots| - i
      {
        if delayed.slots[i].valid {
          MergeSlot(i, view);
        }
        i := i + 1;
      }
    }

    /** _hash_perform_actions. */
    method PerformActions()
      requires current.Valid() && Holds(delayed, pending) && pending.Keys !! current.entries.Keys && !performing
      modifies this`performing, this`delayed, this`pending, current
      ensures current.Valid() && |current.mgrs| == |old(current.mgrs)| && current.entries == old(View())
      ensures pending == map[] && Holds(delayed, pending) && delayed.used == 0 && !performing
    {
      hide TableHolds, Stores;
      performing := true;
      ghost var view := View();
      MergeAll(view);
      performing := false;
      NoneLeft(delayed, pending);
      MergeDone(current.entries, pending, view);
    }

    // ---------------------------------------------------------------- rehash

    predicate CanRehash()
      reads this, current
    {
      iterRefs == 0 && !rehashing && !performing && |current.mgrs| != UINT32_MAX
    }

    /** _hash_try_rehash: double the index when more than four keys fall on each bucket. */
    method TryRehash() returns (refused: bool)
      requires Valid() && iterRefs == 0
      modifies this, current
      ensures Valid() && iterRefs == 0 && (current == old(current) || fresh(current))
      ensures current.entries == old(current.entries) && pending == old(pending)
      ensures |current.mgrs| == Grown(old(|current.mgrs|), |current.entries|)
      ensures moved == old(moved) + Moves(old(|current.mgrs|), |current.mgrs|, |current.entries|)
      ensures refused ==> current == old(current) && current.mgrs == old(current.mgrs)
    {
      if !CanRehash() {
        return true;
      }
      if current.slotsUsed / |current.mgrs| > AUTO_REHASH_THRESHOLD {
        Rehash(RehashSize(|current.mgrs|));
        return false;
      }
      return true;
    }

    /** fhash_rehash: any index size but the present one; 0 asks for the next one. */
    method RehashTo(newSize: nat) returns (failed: bool)
      requires Valid() && newSize <= UINT32_MAX
      modifies this, current
      ensures Valid() && iterRefs == old(iterRefs) && (current == old(current) || fresh(current))
      ensures current.entries == old(current.entries) && pending == old(pending)
      ensures failed <==> old(iterRefs) > 0 || old(|current.mgrs|) == UINT32_MAX || newSize == old(|current.mgrs|)
      ensures !failed && newSize > 0 ==> |current.mgrs| == newSize
      ensures !failed && newSize == 0 ==>
        |current.mgrs| == if 2 * old(|current.mgrs|) <= UINT32_MAX then 2 * old(|current.mgrs|) else UINT32_MAX
      ensures !failed ==> moved == old(moved) + |current.entries|
      ensures failed ==> current == old(current) && current.mgrs == old(current.mgrs) && moved == old(moved)
    {
      if !CanRehash() {
        return true;
      }
      if newSize == |current.mgrs| {
        return true;
      }
      Rehash(if newSize == 0 then RehashSize(|current.mgrs|) else newSize);
      return false;
    }

    /** _hash_rehash: move every node over with the help of an iterator, then swap the tables. */
    method Rehash(newSize: nat)
      requires Valid() && iterRefs == 0 && 0 < newSize <= UINT32_MAX
      modifies this, current
      ensures Valid() && iterRefs == 0 && fresh(current) && |current.mgrs| == newSize
      ensures current.entries == old(current.entries) && pending == old(pending)
      ensures moved == old(moved) + |current.entries|
    {
      rehashing := true;
      var table := new Table(hash, newSize);
      ghost var n := MoveNodes(table);
      moved := moved + n;
      // the release inside finds nothing delayed, and _hash_try_rehash refuses while rehashing
      current := table;
      rehashing := false;
    }

    /** The migration loop of a rehash; the old table's nodes are blanked as they go. */
    method MoveNodes(table: Table) returns (ghost n: nat)
      requires current.Valid() && table.Valid() && table != current && current.hash == table.hash == hash
      requires table.entries == map[] && iterRefs == 0
      modifies this`iterRefs, current`mgrs, table`mgrs, table`entries, table`slotsUsed
      ensures table.Valid() && |table.mgrs| == |old(table.mgrs)| && iterRefs == 0
      ensures table.entries == old(current.entries) && n == |table.entries|
    {
      ghost var mgrs, m := current.mgrs, current.entries;
      var it := IterNew();
      n := 0;
      while true
        invariant fresh(it) && iterRefs == 1
        invariant table.Valid() && |table.mgrs| == |old(table.mgrs)|
        invariant Ahead(mgrs, current.mgrs, it.cursor) && Copied(mgrs, m, it.cursor, table.entries)
        invariant n == |table.entries|
        decreases m.Keys - table.entries.Keys
      {
        ghost var c := it.cursor;
        var node := Next(it);
        if node.None? {
          AllCopied(mgrs, current.mgrs, hash, m, c, table.entries);
          break;
        }
        CopyOne(mgrs, current.mgrs, hash, m, c, it.node.value, table.entries);
        table.SetNode(node.value);
        current.Blank(it.node.value.b, it.node.value.i);
        n := n + 1;
      }
      iterRefs := iterRefs - 1;
    }
  }

  lemma StableRefl(mgrs: seq<Mgr>)
    ensures Stable(mgrs, mgrs)
  {
  }

  /** While the delayed pairs are merged, table and rest together are what they were. */
  ghost predicate Merging(entries: map<Key, Value>, rest: map<Key, Value>, view: map<Key, Value>) {
    entries.Keys !! rest.Keys && entries + rest == view
  }

  lemma SetLeft(e: map<Key, Value>, m: map<Key, Value>, k: Key, v: Value)
    requires e.Keys !! m.Keys && k !in m
    ensures e[k := v] + m == (e + m)[k := v] && e[k := v].Keys !! m.Keys
  {
  }

  lemma SetRight(e: map<Key, Value>, m: map<Key, Value>, k: Key, v: Value)
    requires e.Keys !! m.Keys && k !in e
    ensures e + m[k := v] == (e + m)[k := v] && e.Keys !! m[k := v].Keys
  {
  }

  lemma NothingRight(e: map<Key, Value>)
    ensures e + map[] == e
  {
  }

  lemma MoveLeft(e: map<Key, Value>, m: map<Key, Value>, k: Key)
    requires e.Keys !! m.Keys && k in m
    ensures e[k := m[k]] + (m - {k}) == e + m && e[k := m[k]].Keys !! (m - {k}).Keys
  {
  }

  lemma MergeDone(e: map<Key, Value>, m: map<Key, Value>, view: map<Key, Value>)
    requires Merging(e, m, view) && m == map[]
    ensures e == view
  {
    NothingRight(e);
  }

  lemma MergeOne(mgr: Mgr, m: map<Key, Value>, i: nat, entries: map<Key, Value>, view: map<Key, Value>)
    requires Holds(mgr, m) && i < |mgr.slots| && mgr.slots[i].valid
    ensures m != map[] && mgr.used > 0 && Holds(Mgr(mgr.used - 1, mgr.slots[i := BLANK]), m - {mgr.slots[i].key})
    ensures Merging(entries, m, view) ==>
      Merging(entries[mgr.slots[i].key := mgr.slots[i].value], m - {mgr.slots[i].key}, view)
  {
    HoldsRemove(mgr, m, i, BLANK);
    var k := mgr.slots[i].key;
    assert k in m && m[k] == mgr.slots[i].value;
    if entries.Keys !! m.Keys {
      MoveLeft(entries, m, k);
    }
  }

  lemma NoneLeft(mgr: Mgr, m: map<Key, Value>)
    requires Holds(mgr, m) && forall j :: 0 <= j < |mgr.slots| ==> !mgr.slots[j].valid
    ensures m == map[] && mgr.used == 0
  {
    NoneStored(mgr.slots, m);
  }

  // ------------------------------------------------------------------ the loop of a rehash

  ghost predicate SlotsAhead(x: seq<Node>, y: seq<Node>, b: nat, c: Cursor) {
    |x| == |y| && forall i :: 0 <= i < |x| && !Before(b, i, c) ==> y[i] == x[i]
  }

  /** What the cursor has not passed is still as it was. */
  ghost predicate Ahead(was: seq<Mgr>, now: seq<Mgr>, c: Cursor) {
    |was| == |now| && forall b :: 0 <= b < |was| ==> SlotsAhead(was[b].slots, now[b].slots, b, c)
  }

  /** The new table holds exactly the pairs whose slots the cursor has passed. */
  ghost predicate Copied(mgrs: seq<Mgr>, m: map<Key, Value>, c: Cursor, e: map<Key, Value>) {
    && (forall k :: k in e ==> k in m && e[k] == m[k])
    && (forall b, i, k :: At(mgrs, b, i, k) ==> (k in e <==> Before(b, i, c)))
  }

  lemma CopyOne(mgrs: seq<Mgr>, now: seq<Mgr>, hash: Key -> nat, m: map<Key, Value>,
                c: Cursor, p: Pos, e: map<Key, Value>)
    requires TableHolds(mgrs, hash, m) && Ahead(mgrs, now, c) && Copied(mgrs, m, c, e)
    requires NextPos(now, c).0 == Some(p) && ValidAt(now, p.b, p.i)
    ensures var node, c' := now[p.b].slots[p.i], NextPos(now, c).1;
      && node.key in m && node.key !in e
      && Copied(mgrs, m, c', e[node.key := node.value])
      && Ahead(mgrs, now[p.b := now[p.b].(slots := now[p.b].slots[p.i := BLANK])], c')
  {
    NextPosIs(now, c);
    var c' := NextPos(now, c).1;
    assert SlotsAhead(mgrs[p.b].slots, now[p.b].slots, p.b, c);
    var node := now[p.b].slots[p.i];
    assert At(mgrs, p.b, p.i, node.key);
    PositionKey(mgrs, hash, m, p.b, p.i, node.key);
    forall b, i, k | At(mgrs, b, i, k) ensures k in e[node.key := node.value] <==> Before(b, i, c') {
      if k == node.key {
        OnePosition(mgrs, hash, m, b, i, p.b, p.i, k);
      } else if !Before(b, i, c) {
        assert SlotsAhead(mgrs[b].slots, now[b].slots, b, c);
        assert ValidAt(now, b, i);
      }
    }
    BlankAhead(mgrs, now, c, p, c');
  }

  lemma BlankAhead(mgrs: seq<Mgr>, now: seq<Mgr>, c: Cursor, p: Pos, c': Cursor)
    requires Ahead(mgrs, now, c) && ValidAt(now, p.b, p.i) && Before(p.b, p.i, c')
    requires forall b, i :: Before(b, i, c) ==> Before(b, i, c')
    ensures Ahead(mgrs, now[p.b := now[p.b].(slots := now[p.b].slots[p.i := BLANK])], c')
  {
    var now' := now[p.b := now[p.b].(slots := now[p.b].slots[p.i := BLANK])];
    forall b | 0 <= b < |mgrs| ensures SlotsAhead(mgrs[b].slots, now'[b].slots, b, c') {
      assert SlotsAhead(mgrs[b].slots, now[b].slots, b, c);
    }
  }

  lemma AllCopied(mgrs: seq<Mgr>, now: seq<Mgr>, hash: Key -> nat, m: map<Key, Value>, c: Cursor, e: map<Key, Value>)
    requires TableHolds(mgrs, hash, m) && Ahead(mgrs, now, c) && Copied(mgrs, m, c, e)
    requires NextPos(now, c).0.None?
    ensures e == m
  {
    NextPosIs(now, c);
    forall k | k in m ensures k in e {
      var b, i := KeyPosition(mgrs, hash, m, k);
      if !Before(b, i, c) {
        assert SlotsAhead(mgrs[b].slots, now[b].slots, b, c);
        assert ValidAt(now, b, i);
      }
    }
  }

  // ------------------------------------------------------------------ delayed keys and delete

  /** After a delete the key is gone from what users see exactly when it was not waiting in the delayed list. */
  lemma DeletedIffNotDelayed(entries: map<Key, Value>, pending: map<Key, Value>, k: Key)
    requires entries.Keys !! pending.Keys
    ensures (entries - {k}) + pending == (entries + pending) - {k} <==> k !in pending
  {
    if k in pending {
      assert k in (entries - {k}) + pending;
    }
  }

  /** Setting a new key and deleting it at once: gone without iterators, still there with one. */
  method SetThenDel(h: Fhash, k: Key, v: Value) returns (r: Option<Value>)
    requires h.Valid() && k != [] && v != [] && k !in h.View()
    modifies h, h.current
    ensures h.Valid()
    ensures r == if old(h.iterRefs) > 0 then Some(v) else None
  {
    h.Set(k, v);
    h.Del(k);
    r := h.Get(k);
  }
}
