/** The cache of fcache/fcache.c seen as a map from keys to objects, one that may forget but never confuses. */
module FcacheMap {
  import opened Options
  import opened FcacheSpec
  import F = Fcache

  /** No key is cached twice. */
  ghost predicate KeysOnce(es: seq<Entry>) {
    forall i, j :: 0 <= i < j < |es| ==> es[i].key != es[j].key
  }

  ghost predicate KeyAt(es: seq<Entry>, i: int, k: Key) {
    0 <= i < |es| && es[i].key == k
  }

  ghost predicate EntryIn(es: seq<Entry>, m: map<Key, Option<Data>>, i: nat)
    requires i < |es|
  {
    es[i].key in m && m[es[i].key] == es[i].data
  }

  ghost predicate KeyIn(es: seq<Entry>, k: Key) {
    exists i :: KeyAt(es, i, k)
  }

  /** `m` is what the entries store. */
  ghost predicate Maps(es: seq<Entry>, m: map<Key, Option<Data>>) {
    && KeysOnce(es)
    && (forall i :: 0 <= i < |es| ==> EntryIn(es, m, i))
    && (forall k :: k in m ==> KeyIn(es, k))
  }

  /** Every valid cache stores some map, because its index tells the nodes apart by their keys. */
  lemma ValidMaps(c: F.Fcache) returns (m: map<Key, Option<Data>>)
    requires c.Valid()
    ensures Maps(c.Abs().Recency(), m)
  {
    hide Sum;
    c.NodesDistinct();
    var es, ns := c.Abs().Recency(), c.Nodes();
    assert |es| == |ns|;
    forall i | 0 <= i < |es| ensures es[i].key == ns[i].key && ns[i] in ns {
    }
    m := StoredMap(es);
  }

  /** The map of entries with distinct keys. */
  lemma {:induction false} StoredMap(es: seq<Entry>) returns (m: map<Key, Option<Data>>)
    requires KeysOnce(es)
    ensures Maps(es, m)
  {
    if es == [] {
      m := map[];
    } else {
      var front, last := es[..|es| - 1], es[|es| - 1];
      var n := StoredMap(front);
      m := n[last.key := last.data];
      forall i | 0 <= i < |es| ensures EntryIn(es, m, i) {
        assert i < |front| ==> EntryIn(front, n, i) && es[i].key != last.key;
      }
      forall k | k in m ensures KeyIn(es, k) {
        if k == last.key {
          assert KeyAt(es, |es| - 1, k);
        } else {
          assert KeyIn(front, k);
          var i :| KeyAt(front, i, k);
          assert KeyAt(es, i, k);
        }
      }
    }
  }

  /** A lookup finds what is stored, and nothing else. */
  lemma LookupIs(c: Cache, m: map<Key, Option<Data>>, k: Key)
    requires Maps(c.Recency(), m)
    ensures Has(c, k) <==> k in m
    ensures Has(c, k) ==> Lookup(c, k).data == m[k]
  {
    var i, j, es := Where(c.inactive, k), Where(c.active, k), c.Recency();
    if i < |c.inactive| {
      assert es[i] == c.inactive[i];
      assert EntryIn(es, m, i);
    } else if j < |c.active| {
      assert es[|c.inactive| + j] == c.active[j];
      assert EntryIn(es, m, |c.inactive| + j);
    }
    if k in m {
      assert KeyIn(es, k);
      var a :| KeyAt(es, a, k);
      assert a < |c.inactive| || es[a] == c.active[a - |c.inactive|];
    }
  }

  /** Taking one entry out forgets its key. */
  lemma RemoveMaps(es: seq<Entry>, m: map<Key, Option<Data>>, i: nat)
    requires Maps(es, m) && i < |es|
    ensures Maps(Remove(es, i), m - {es[i].key})
  {
    var r, m' := Remove(es, i), m - {es[i].key};
    assert forall a :: 0 <= a < |r| ==> r[a] == es[if a < i then a else a + 1];
    forall a | 0 <= a < |r| ensures EntryIn(r, m', a) {
      assert EntryIn(es, m, if a < i then a else a + 1);
    }
    forall k | k in m' ensures KeyIn(r, k) {
      assert KeyIn(es, k);
      var b :| KeyAt(es, b, k);
      assert KeyAt(r, if b < i then b else b - 1, k);
    }
  }

  /** Putting an entry with a new key in anywhere stores it. */
  lemma InsertMaps(a: seq<Entry>, e: Entry, b: seq<Entry>, m: map<Key, Option<Data>>)
    requires Maps(a + b, m) && e.key !in m
    ensures Maps(a + [e] + b, m[e.key := e.data])
  {
    var es, r, m' := a + b, a + [e] + b, m[e.key := e.data];
    assert r[|a|] == e;
    forall i | 0 <= i < |r| && i != |a| ensures r[i] == es[if i < |a| then i else i - 1] && r[i].key != e.key {
      assert EntryIn(es, m, if i < |a| then i else i - 1);
    }
    forall i | 0 <= i < |r| ensures EntryIn(r, m', i) {
      if i != |a| {
        assert EntryIn(es, m, if i < |a| then i else i - 1);
      }
    }
    forall k | k in m' ensures KeyIn(r, k) {
      if k == e.key {
        assert KeyAt(r, |a|, k);
      } else {
        assert KeyIn(es, k);
        var j :| KeyAt(es, j, k);
        assert KeyAt(r, if j < |a| then j else j + 1, k);
      }
    }
  }

  lemma DeleteMaps(c: Cache, m: map<Key, Option<Data>>, k: Key)
    requires Maps(c.Recency(), m)
    ensures Maps(Delete(c, k).Recency(), m - {k})
  {
    hide Maps, Remove;
    LookupIs(c, m, k);
    var i, j := Where(c.inactive, k), Where(c.active, k);
    if i < |c.inactive| {
      RemoveMaps(c.Recency(), m, i);
      RemoveFromLeft(c.inactive, c.active, i);
    } else if j < |c.active| {
      RemoveMaps(c.Recency(), m, |c.inactive| + j);
      RemoveFromRight(c.inactive, c.active, j);
    } else {
      assert m - {k} == m;
    }
  }

  /** Asking for a key changes no pair. */
  lemma TouchMaps(c: Cache, m: map<Key, Option<Data>>, k: Key)
    requires Maps(c.Recency(), m)
    ensures Maps(Touch(c, k).Recency(), m)
  {
    hide Maps, Remove;
    var i, j := Where(c.inactive, k), Where(c.active, k);
    if i < |c.inactive| {
      TouchMovesToEnd(c, i, false);
      MovedMaps(c.Recency(), m, i);
    } else if j < |c.active| {
      TouchMovesToEnd(c, j, true);
      MovedMaps(c.Recency(), m, |c.inactive| + j);
    }
  }

  lemma MovedMaps(es: seq<Entry>, m: map<Key, Option<Data>>, i: nat)
    requires Maps(es, m) && i < |es|
    ensures Maps(Remove(es, i) + [es[i]], m)
  {
    RemoveMaps(es, m, i);
    var rest, m' := Remove(es, i), m - {es[i].key};
    assert rest + [] == rest && rest + [es[i]] + [] == rest + [es[i]];
    InsertMaps(rest, es[i], [], m');
    assert EntryIn(es, m, i);
    assert m'[es[i].key := es[i].data] == m;
  }

  /** Storing an object of the same size under a known key replaces exactly that pair. */
  lemma UpdateMaps(c: Cache, m: map<Key, Option<Data>>, k: Key, data: Option<Data>)
    requires Maps(c.Recency(), m) && Has(c, k)
    ensures Maps(Update(c, k, data).Recency(), m[k := data])
  {
    hide Maps;
    var i, j := Where(c.inactive, k), Where(c.active, k);
    if i < |c.inactive| {
      ReplacedMaps(c.Recency(), m, i, data);
      assert Update(c, k, data).Recency() == c.Recency()[i := c.Recency()[i].(data := data)];
    } else {
      var at := |c.inactive| + j;
      ReplacedMaps(c.Recency(), m, at, data);
      assert Update(c, k, data).Recency() == c.Recency()[at := c.Recency()[at].(data := data)];
    }
  }

  lemma ReplacedMaps(es: seq<Entry>, m: map<Key, Option<Data>>, i: nat, data: Option<Data>)
    requires Maps(es, m) && i < |es|
    ensures Maps(es[i := es[i].(data := data)], m[es[i].key := data])
  {
    var r, m' := es[i := es[i].(data := data)], m[es[i].key := data];
    assert forall a :: 0 <= a < |r| ==> r[a].key == es[a].key;
    assert EntryIn(es, m, i);
    forall a | 0 <= a < |r| ensures EntryIn(r, m', a) {
      assert EntryIn(es, m, a);
    }
    forall k | k in m' ensures KeyIn(r, k) {
      assert KeyIn(es, k);
      var a :| KeyAt(es, a, k);
      assert KeyAt(r, a, k);
    }
  }

  ghost function KeysOf(es: seq<Entry>): set<Key> {
    if es == [] then {} else KeysOf(es[..|es| - 1]) + {es[|es| - 1].key}
  }

  lemma MinusTwice(m: map<Key, Option<Data>>, a: set<Key>, k: Key)
    ensures m - a - {k} == m - (a + {k})
    ensures m - {} == m
  {
  }

  /** Dropping the oldest entries forgets their keys. */
  lemma {:induction false} DropMaps(es: seq<Entry>, m: map<Key, Option<Data>>, n: nat)
    requires Maps(es, m) && n <= |es|
    ensures Maps(es[n..], m - KeysOf(es[..n]))
  {
    hide Maps;
    if n == 0 {
      assert es[0..] == es && es[..0] == [];
      MinusTwice(m, {}, "");
    } else {
      DropMaps(es, m, n - 1);
      RemoveMaps(es[n - 1..], m - KeysOf(es[..n - 1]), 0);
      assert Remove(es[n - 1..], 0) == es[n..];
      assert es[..n][..n - 1] == es[..n - 1];
      MinusTwice(m, KeysOf(es[..n - 1]), es[n - 1].key);
    }
  }

  /** A new key: a refused add changes no pair; an accepted one stores the pair and forgets the keys of the
      shortest sufficient prefix of the recency sequence, and no others. */
  lemma AddMaps(c: Cache, maxSize: nat, e: Entry, m: map<Key, Option<Data>>) returns (n: nat)
    requires Maps(c.Recency(), m) && !Has(c, e.key)
    requires Sum(c.Recency()) <= maxSize && e.size <= maxSize
    ensures n <= |c.Recency()|
    ensures var o := Add(c, maxSize, e);
      && Maps(o.cache.Recency(), if o.refused then m else (m - KeysOf(c.Recency()[..n]))[e.key := e.data])
      && forall k :: 0 <= k < n ==> Sum(c.Recency()) - Sum(c.Recency()[..k]) + e.size > maxSize
  {
    hide Maps, MakeRoom, Sum, KeysOf;
    n := MakeRoomCutsAPrefix(c, maxSize, e.size);
    var o := MakeRoom(c, maxSize, e.size);
    var all := c.Recency();
    LookupIs(c, m, e.key);
    if o.refused {
      assert all[0..] == all;
    } else {
      DropMaps(all, m, n);
      InsertMaps(o.cache.inactive, e, o.cache.active, m - KeysOf(all[..n]));
    }
  }
}
