/** What the cache of fcache/fcache.c is: one sequence of entries by recency with a split point.

    The part before the split is the inactive list, where entries come in and are dropped; the part after it
    is the active list, where entries go when they are asked for.
 */
module FcacheSpec {
  import opened Options

  type Key = string
  type Data = nat

  /** A cached object; `data` is None for a stored NULL pointer. */
  datatype Entry = Entry(key: Key, data: Option<Data>, size: nat)

  datatype Cache = Cache(inactive: seq<Entry>, active: seq<Entry>) {
    function Recency(): seq<Entry> { inactive + active }
  }

  function Sum(es: seq<Entry>): nat {
    if es == [] then 0 else Sum(es[..|es| - 1]) + es[|es| - 1].size
  }

  function Datas(es: seq<Entry>): seq<Option<Data>> {
    seq(|es|, i requires 0 <= i < |es| => es[i].data)
  }

  function Remove(es: seq<Entry>, i: nat): (r: seq<Entry>)
    requires i < |es|
    ensures |r| == |es| - 1
  {
    es[..i] + es[i + 1..]
  }

  // ------------------------------------------------------------------ operations

  /** _fcache_balance_nodes: only when the active list is the longer one, down to half of all entries. */
  function Balance(c: Cache): Cache {
    var half := (|c.inactive| + |c.active|) / 2;
    if |c.active| <= half then c
    else
      var n := |c.active| - half;
      Cache(c.inactive + c.active[..n], c.active[n..])
  }

  /** How many of the oldest entries have to go to free `need` bytes. */
  function DropCount(es: seq<Entry>, need: int): (n: nat)
    ensures n <= |es|
  {
    if need <= 0 || es == [] then 0 else 1 + DropCount(es[1..], need - es[0].size)
  }

  datatype Outcome = Outcome(cache: Cache, freed: seq<Option<Data>>, refused: bool)

  /** Make room for `size` more bytes: nothing to do, or drop from the inactive list, after one balance if
      that list is too small; refused, with nothing dropped, if it still is. */
  function MakeRoom(c: Cache, maxSize: nat, size: nat): Outcome {
    var free := maxSize - Sum(c.Recency());
    if size == 0 || free >= size then Outcome(c, [], false)
    else
      var need := size - free;
      var b := if Sum(c.inactive) < need then Balance(c) else c;
      if Sum(b.inactive) < need then Outcome(b, [], true)
      else
        var n := DropCount(b.inactive, need);
        Outcome(Cache(b.inactive[n..], b.active), Datas(b.inactive[..n]), false)
  }

  function Add(c: Cache, maxSize: nat, e: Entry): Outcome {
    var o := MakeRoom(c, maxSize, e.size);
    if o.refused then o else o.(cache := Cache(o.cache.inactive + [e], o.cache.active))
  }

  /** An entry that is asked for becomes the most recent of all. */
  function TouchInactive(c: Cache, i: nat): Cache
    requires i < |c.inactive|
  {
    Cache(Remove(c.inactive, i), c.active + [c.inactive[i]])
  }

  function TouchActive(c: Cache, i: nat): Cache
    requires i < |c.active|
  {
    Cache(c.inactive, Remove(c.active, i) + [c.active[i]])
  }

  /** Where a key is in a list of entries; the length if it is not there. */
  function Where(es: seq<Entry>, key: Key): (i: nat)
    ensures i <= |es| && (i < |es| ==> es[i].key == key)
    ensures forall j :: 0 <= j < i ==> es[j].key != key
  {
    if es == [] || es[0].key == key then 0 else 1 + Where(es[1..], key)
  }

  predicate Has(c: Cache, key: Key) {
    Where(c.inactive, key) < |c.inactive| || Where(c.active, key) < |c.active|
  }

  function Lookup(c: Cache, key: Key): Entry
    requires Has(c, key)
  {
    var i := Where(c.inactive, key);
    if i < |c.inactive| then c.inactive[i] else c.active[Where(c.active, key)]
  }

  function Touch(c: Cache, key: Key): Cache {
    var i, j := Where(c.inactive, key), Where(c.active, key);
    if i < |c.inactive| then TouchInactive(c, i)
    else if j < |c.active| then TouchActive(c, j)
    else c
  }

  function Delete(c: Cache, key: Key): Cache {
    var i, j := Where(c.inactive, key), Where(c.active, key);
    if i < |c.inactive| then c.(inactive := Remove(c.inactive, i))
    else if j < |c.active| then c.(active := Remove(c.active, j))
    else c
  }

  function Update(c: Cache, key: Key, data: Option<Data>): Cache {
    var i, j := Where(c.inactive, key), Where(c.active, key);
    if i < |c.inactive| then c.(inactive := c.inactive[i := c.inactive[i].(data := data)])
    else if j < |c.active| then c.(active := c.active[j := c.active[j].(data := data)])
    else c
  }

  // ------------------------------------------------------------------ the balancing heuristic

  const BALANCE_INTERVAL: nat := 2000

  /** The average entry size, in whole bytes, is 0 or there is no entry: the heuristic then divides by zero. */
  predicate NoAverage(c: Cache) {
    c.Recency() == [] || Sum(c.Recency()) < |c.Recency()|
  }

  /** No more than so many average entries fit in what is free. */
  predicate NearlyFull(c: Cache, maxSize: nat)
    requires !NoAverage(c) && Sum(c.Recency()) <= maxSize
  {
    var size, count := Sum(c.Recency()), |c.Recency()|;
    AverageIsPositive(size, count);
    (maxSize - size) / (size / count) <= BALANCE_INTERVAL
  }

  lemma AverageIsPositive(size: nat, count: nat)
    requires count > 0
    ensures size / count == 0 <==> size < count
  {
  }

  /** If every entry has a size, only the empty cache has no average. */
  lemma {:induction false} SizedEntriesAverage(es: seq<Entry>)
    requires forall i :: 0 <= i < |es| ==> es[i].size > 0
    ensures Sum(es) >= |es|
  {
    if es != [] {
      SizedEntriesAverage(es[..|es| - 1]);
    }
  }

  lemma NoAverageIffEmpty(c: Cache)
    requires forall i :: 0 <= i < |c.Recency()| ==> c.Recency()[i].size > 0
    ensures NoAverage(c) <==> c.Recency() == []
  {
    SizedEntriesAverage(c.Recency());
  }

  // ------------------------------------------------------------------ sums

  lemma {:induction false} SumAppend(a: seq<Entry>, b: seq<Entry>)
    ensures Sum(a + b) == Sum(a) + Sum(b)
  {
    if b == [] {
      assert a + b == a;
    } else {
      assert (a + b)[..|a + b| - 1] == a + b[..|b| - 1];
      SumAppend(a, b[..|b| - 1]);
    }
  }

  lemma SumOne(e: Entry)
    ensures Sum([e]) == e.size
  {
    assert [e][..0] == [];
    assert Sum([e][..0]) == 0;
  }

  lemma SumMiddle(a: seq<Entry>, e: Entry, b: seq<Entry>)
    ensures Sum((a + [e]) + b) == Sum(a + b) + e.size
  {
    hide Sum;
    SumAppend(a + [e], b);
    SumAppend(a, [e]);
    SumAppend(a, b);
    SumOne(e);
  }

  lemma SumRemove(es: seq<Entry>, i: nat)
    requires i < |es|
    ensures Sum(es) == Sum(Remove(es, i)) + es[i].size
  {
    hide Sum;
    SumMiddle(es[..i], es[i], es[i + 1..]);
    assert es == (es[..i] + [es[i]]) + es[i + 1..];
  }

  // ------------------------------------------------------------------ what the operations promise

  /** Balancing moves the split and nothing else, and leaves the active list at most half of the entries. */
  lemma BalanceMovesOnlyTheSplit(c: Cache)
    ensures Balance(c).Recency() == c.Recency()
    ensures |Balance(c).active| == if |c.active| <= |c.Recency()| / 2 then |c.active| else |c.Recency()| / 2
    ensures Balance(Balance(c)) == Balance(c)
  {
  }

  lemma SumPrefix(es: seq<Entry>, n: nat)
    requires 0 < n <= |es|
    ensures Sum(es[..n]) == es[0].size + Sum(es[1..][..n - 1])
  {
    hide Sum;
    assert es[..n] == [es[0]] + es[1..][..n - 1];
    SumAppend([es[0]], es[1..][..n - 1]);
    SumOne(es[0]);
  }

  /** Eviction takes the shortest prefix that frees enough. */
  lemma {:induction false} DropsShortestPrefix(es: seq<Entry>, need: int)
    requires need <= Sum(es)
    ensures Sum(es[..DropCount(es, need)]) >= need
    ensures forall n :: 0 <= n < DropCount(es, need) ==> Sum(es[..n]) < need
    decreases |es|, 1
  {
    if need > 0 {
      assert es != [];
      DropNext(es, need);
    }
  }

  lemma {:induction false} DropNext(es: seq<Entry>, need: int)
    requires 0 < need <= Sum(es) && es != []
    ensures Sum(es[..DropCount(es, need)]) >= need
    ensures forall n :: 0 <= n < DropCount(es, need) ==> Sum(es[..n]) < need
    decreases |es|, 0
  {
    hide Sum;
    var m := DropCount(es[1..], need - es[0].size);
    SumPrefix(es, |es|);
    assert es[..|es|] == es && es[1..][..|es| - 1] == es[1..];
    DropsShortestPrefix(es[1..], need - es[0].size);
    SumPrefix(es, m + 1);
    forall n | 0 <= n < m + 1 ensures Sum(es[..n]) < need {
      if n > 0 {
        SumPrefix(es, n);
        assert Sum(es[1..][..n - 1]) < need - es[0].size;
      } else {
        assert es[..0] == [];
        SumNone();
      }
    }
  }

  lemma SumNone()
    ensures Sum([]) == 0
  {
  }

  /** Making room cuts the shortest sufficient prefix off the recency sequence, or nothing at all. */
  lemma MakeRoomCutsAPrefix(c: Cache, maxSize: nat, size: nat) returns (n: nat)
    requires Sum(c.Recency()) <= maxSize && size <= maxSize
    ensures var o := MakeRoom(c, maxSize, size);
      && n <= |c.Recency()| && o.cache.Recency() == c.Recency()[n..]
      && o.freed == Datas(c.Recency()[..n])
      && (o.refused ==> n == 0)
      && (!o.refused ==> Sum(o.cache.Recency()) + size <= maxSize)
      && (!o.refused ==> forall k :: 0 <= k < n ==> Sum(c.Recency()) - Sum(c.Recency()[..k]) + size > maxSize)
  {
    hide Sum, DropCount, Balance;
    var all := c.Recency();
    var free := maxSize - Sum(all);
    n := 0;
    assert all[0..] == all && all[..0] == [];
    if size == 0 || free >= size {
      return;
    }
    var need := size - free;
    BalanceMovesOnlyTheSplit(c);
    var b := if Sum(c.inactive) < need then Balance(c) else c;
    if Sum(b.inactive) < need {
      return;
    }
    DropsShortestPrefix(b.inactive, need);
    n := DropCount(b.inactive, need);
    assert b.Recency() == all;
    CutInactive(b, n);
    assert all == all[..n] + all[n..];
    SumAppend(all[..n], all[n..]);
    forall k | 0 <= k < n ensures Sum(all) - Sum(all[..k]) + size > maxSize {
      assert all[..k] == b.inactive[..k];
    }
  }

  lemma CutInactive(b: Cache, n: nat)
    requires n <= |b.inactive|
    ensures Cache(b.inactive[n..], b.active).Recency() == b.Recency()[n..]
    ensures b.Recency()[..n] == b.inactive[..n]
  {
  }

  /** An add is refused exactly when more is needed than the entries up to the split hold after one balance. */
  lemma RefusedIff(c: Cache, maxSize: nat, e: Entry)
    requires Sum(c.Recency()) <= maxSize
    ensures var all := c.Recency();
      var split := if |c.active| <= |all| / 2 then |c.inactive| else |all| - |all| / 2;
      Add(c, maxSize, e).refused <==> Sum(all) + e.size - maxSize > Sum(all[..split])
  {
    hide Sum, DropCount;
    var all, b := c.Recency(), Balance(c);
    var split := if |c.active| <= |all| / 2 then |c.inactive| else |all| - |all| / 2;
    BalanceMovesOnlyTheSplit(c);
    assert all[..split] == b.inactive;
    assert all[..split] == c.inactive + all[..split][|c.inactive|..];
    SumAppend(c.inactive, all[..split][|c.inactive|..]);
  }

  /** Where the split is after an add.  As long as the inactive list holds the bytes needed, nothing is refused and
      the active list stays as it is; if it does not, then, accepted or refused, no more than half of the entries
      that were there are active, the most recent ones. */
  lemma SplitAfterAdd(c: Cache, maxSize: nat, e: Entry)
    requires Sum(c.Recency()) <= maxSize
    ensures var o, all := Add(c, maxSize, e), c.Recency();
      if Sum(all) + e.size - maxSize <= Sum(c.inactive)
      then !o.refused && o.cache.active == c.active
      else o.cache.active == all[|all| - (if |c.active| <= |all| / 2 then |c.active| else |all| / 2)..]
  {
    hide Sum, DropCount;
    BalanceMovesOnlyTheSplit(c);
    assert Balance(c).active == c.Recency()[|Balance(c).inactive|..];
    assert c.active == c.Recency()[|c.inactive|..];
  }

  /** A successful add cuts that prefix and puts the entry in at the split; a refused one keeps every entry.
      Either way the budget holds. */
  lemma AddKeepsBudget(c: Cache, maxSize: nat, e: Entry)
    requires Sum(c.Recency()) <= maxSize && e.size <= maxSize
    ensures var o := Add(c, maxSize, e);
      && Sum(o.cache.Recency()) <= maxSize
      && (o.refused ==> o.cache.Recency() == c.Recency() && o.freed == [])
      && (!o.refused ==> e in o.cache.Recency() && o.cache.inactive[|o.cache.inactive| - 1] == e)
  {
    hide Sum, MakeRoom, DropCount, Balance;
    var n := MakeRoomCutsAPrefix(c, maxSize, e.size);
    var o := MakeRoom(c, maxSize, e.size);
    if o.refused {
      assert c.Recency()[0..] == c.Recency() && c.Recency()[..0] == [];
    } else {
      var a := o.cache;
      SumAppend(a.inactive, a.active);
      SumAppend(a.inactive + [e], a.active);
      SumAppend(a.inactive, [e]);
      SumOne(e);
      assert (a.inactive + [e] + a.active)[|a.inactive|] == e;
    }
  }

  /** Every object handed to the cache is afterwards either in it or has been given to the free callback. */
  lemma AddConservesObjects(c: Cache, maxSize: nat, e: Entry)
    requires Sum(c.Recency()) <= maxSize && e.size <= maxSize
    ensures var o := Add(c, maxSize, e);
      multiset(Datas(o.cache.Recency())) + multiset(o.freed)
        == multiset(Datas(c.Recency())) + (if o.refused then multiset{} else multiset{e.data})
  {
    hide Sum, MakeRoom, DropCount, Balance;
    var n := MakeRoomCutsAPrefix(c, maxSize, e.size);
    var o := MakeRoom(c, maxSize, e.size);
    var all, rest := c.Recency(), o.cache.Recency();
    assert Datas(all) == Datas(all[..n]) + Datas(all[n..]);
    if !o.refused {
      var a := o.cache;
      assert Datas(a.inactive + [e] + a.active) == Datas(a.inactive) + [e.data] + Datas(a.active);
      assert Datas(rest) == Datas(a.inactive) + Datas(a.active);
    }
  }

  // ------------------------------------------------------------------ when the heuristic has no average

  lemma RemoveFromLeft(a: seq<Entry>, b: seq<Entry>, i: nat)
    requires i < |a|
    ensures Remove(a + b, i) == Remove(a, i) + b && (a + b)[i] == a[i]
  {
  }

  lemma RemoveFromRight(a: seq<Entry>, b: seq<Entry>, j: nat)
    requires j < |b|
    ensures Remove(a + b, |a| + j) == a + Remove(b, j) && (a + b)[|a| + j] == b[j]
  {
  }

  /** Deleting a key leaves no average exactly if it was the only one, or the bytes left are fewer than the
      entries left. */
  lemma DeleteNoAverageIff(c: Cache, key: Key)
    requires Has(c, key)
    ensures NoAverage(Delete(c, key)) <==>
              |c.Recency()| == 1 || Sum(c.Recency()) - Lookup(c, key).size < |c.Recency()| - 1
  {
    var i, j, all := Where(c.inactive, key), Where(c.active, key), c.Recency();
    var at := if i < |c.inactive| then i else |c.inactive| + j;
    assert Delete(c, key).Recency() == Remove(all, at) && all[at] == Lookup(c, key) by {
      if i < |c.inactive| {
        RemoveFromLeft(c.inactive, c.active, i);
      } else {
        RemoveFromRight(c.inactive, c.active, j);
      }
    }
    assert |Remove(all, at)| == |all| - 1;
    hide Sum, Remove, Delete, Lookup, Has;
    SumRemove(all, at);
  }

  /** An update of the same size leaves no average exactly if there was none. */
  lemma UpdateNoAverageIff(c: Cache, key: Key, data: Option<Data>)
    ensures NoAverage(Update(c, key, data)) <==> NoAverage(c)
  {
    SameSum(Update(c, key, data).Recency(), c.Recency());
  }

  lemma {:induction false} SameSum(a: seq<Entry>, b: seq<Entry>)
    requires |a| == |b| && forall i :: 0 <= i < |a| ==> a[i].size == b[i].size
    ensures Sum(a) == Sum(b)
  {
    if a != [] {
      SameSum(a[..|a| - 1], b[..|b| - 1]);
    }
  }

  /** An accepted add leaves no average exactly if the new size and the bytes behind the shortest sufficient
      prefix, of `n` entries, are fewer than the entries that are then there. */
  lemma AddNoAverageIff(c: Cache, maxSize: nat, e: Entry) returns (n: nat)
    requires Sum(c.Recency()) <= maxSize && e.size <= maxSize && !Add(c, maxSize, e).refused
    ensures n <= |c.Recency()| && Sum(c.Recency()[n..]) + e.size <= maxSize
    ensures forall k :: 0 <= k < n ==> Sum(c.Recency()) - Sum(c.Recency()[..k]) + e.size > maxSize
    ensures NoAverage(Add(c, maxSize, e).cache) <==> Sum(c.Recency()[n..]) + e.size < |c.Recency()| - n + 1
  {
    hide Sum, MakeRoom;
    n := MakeRoomCutsAPrefix(c, maxSize, e.size);
    var a := MakeRoom(c, maxSize, e.size).cache;
    var now := Add(c, maxSize, e).cache;
    assert now.Recency() == (a.inactive + [e]) + a.active;
    SumAppend(a.inactive + [e], a.active);
    SumAppend(a.inactive, [e]);
    SumAppend(a.inactive, a.active);
    SumOne(e);
  }

  /** Asking for an entry moves exactly that entry to the most recent end and changes no size. */
  lemma TouchMovesToEnd(c: Cache, i: nat, active: bool)
    requires i < if active then |c.active| else |c.inactive|
    ensures var at := if active then |c.inactive| + i else i;
      var c' := if active then TouchActive(c, i) else TouchInactive(c, i);
      && c'.Recency() == Remove(c.Recency(), at) + [c.Recency()[at]]
      && Sum(c'.Recency()) == Sum(c.Recency())
  {
    hide Sum;
    var at := if active then |c.inactive| + i else i;
    var c' := if active then TouchActive(c, i) else TouchInactive(c, i);
    assert c'.Recency() == Remove(c.Recency(), at) + [c.Recency()[at]];
    SumRemove(c.Recency(), at);
    SumAppend(Remove(c.Recency(), at), [c.Recency()[at]]);
    SumOne(c.Recency()[at]);
  }

  // ------------------------------------------------------------------ the two lists as one sequence

  /** Looking a key up in the inactive and then in the active list is looking it up in the recency sequence. */
  lemma {:induction false} WhereInBoth(a: seq<Entry>, b: seq<Entry>, key: Key)
    ensures Where(a + b, key) == if Where(a, key) < |a| then Where(a, key) else |a| + Where(b, key)
    decreases |a|
  {
    if a == [] {
      assert a + b == b;
    } else {
      assert (a + b)[1..] == a[1..] + b;
      WhereInBoth(a[1..], b, key);
    }
  }

  /** The entry found for a key is the first with that key in the recency sequence. */
  lemma LookupIsFirst(c: Cache, key: Key)
    ensures var all := c.Recency(); var at := Where(all, key);
      && (Has(c, key) <==> at < |all|) && (Has(c, key) ==> Lookup(c, key) == all[at])
  {
    WhereInBoth(c.inactive, c.active, key);
  }

  /** A get moves the entry found to the most recent end, and into the active list; nothing else moves. */
  lemma TouchIs(c: Cache, key: Key)
    ensures var all, c' := c.Recency(), Touch(c, key); var at := Where(all, key);
      && c'.Recency() == (if at < |all| then Remove(all, at) + [all[at]] else all)
      && |c'.active| == |c.active| + (if at < |c.inactive| then 1 else 0)
  {
    hide Sum, Remove, Where;
    WhereInBoth(c.inactive, c.active, key);
    var i, j := Where(c.inactive, key), Where(c.active, key);
    if i < |c.inactive| {
      TouchMovesToEnd(c, i, false);
    } else if j < |c.active| {
      TouchMovesToEnd(c, j, true);
    }
  }

  /** A delete takes out the entry found; all others keep their order and their list. */
  lemma DeleteIs(c: Cache, key: Key)
    ensures var all, c' := c.Recency(), Delete(c, key); var at := Where(all, key);
      && c'.Recency() == (if at < |all| then Remove(all, at) else all)
      && |c'.active| == |c.active| - (if |c.inactive| <= at < |all| then 1 else 0)
  {
    hide Remove, Where;
    WhereInBoth(c.inactive, c.active, key);
    var i, j := Where(c.inactive, key), Where(c.active, key);
    if i < |c.inactive| {
      RemoveFromLeft(c.inactive, c.active, i);
    } else if j < |c.active| {
      RemoveFromRight(c.inactive, c.active, j);
    }
  }

  /** An update gives the entry found another object and leaves it where it is. */
  lemma UpdateIs(c: Cache, key: Key, data: Option<Data>)
    ensures var all, c' := c.Recency(), Update(c, key, data); var at := Where(all, key);
      && c'.Recency() == (if at < |all| then all[at := all[at].(data := data)] else all)
      && |c'.active| == |c.active|
  {
    WhereInBoth(c.inactive, c.active, key);
  }

  // ------------------------------------------------------------------ when balancing is switched on

  /** All entries have at least `low` and at most `high` bytes. */
  predicate Sized(es: seq<Entry>, low: nat, high: nat) {
    forall i :: 0 <= i < |es| ==> low <= es[i].size <= high
  }

  lemma {:induction false} SizedSum(es: seq<Entry>, low: nat, high: nat)
    requires Sized(es, low, high)
    ensures low * |es| <= Sum(es) <= high * |es|
  {
    if es != [] {
      SizedSum(es[..|es| - 1], low, high);
      assert low * |es| == low * (|es| - 1) + low && high * |es| == high * (|es| - 1) + high;
    }
  }

  lemma AverageBetween(size: nat, count: nat, low: nat, high: nat)
    requires count > 0 && low * count <= size <= high * count
    ensures low <= size / count <= high
  {
    var q := size / count;
    assert q * count <= size < (q + 1) * count;
    if q < low {
      TimesGrows(q + 1, low, count);
    } else if q > high {
      TimesGrows(high + 1, q, count);
    }
  }

  lemma TimesGrows(a: nat, b: nat, c: nat)
    requires a <= b
    ensures a * c <= b * c
  {
  }

  /** Balancing is switched on while at most 2000 of the smallest entries fit in what is free, and not while
      more than 2000 of the largest do. */
  lemma NearlyFullBetween(c: Cache, maxSize: nat, low: nat, high: nat)
    requires c.Recency() != [] && low > 0 && Sized(c.Recency(), low, high) && Sum(c.Recency()) <= maxSize
    ensures !NoAverage(c)
    ensures maxSize - Sum(c.Recency()) < (BALANCE_INTERVAL + 1) * low ==> NearlyFull(c, maxSize)
    ensures maxSize - Sum(c.Recency()) >= (BALANCE_INTERVAL + 1) * high ==> !NearlyFull(c, maxSize)
  {
    var all := c.Recency();
    var size, count := Sum(all), |all|;
    SizedSum(all, low, high);
    AverageBetween(size, count, low, high);
    Average1(low, count);
    FewFit(maxSize - size, size / count, low, high);
  }

  lemma Average1(low: nat, count: nat)
    requires low > 0
    ensures low * count >= count
  {
  }

  lemma FewFit(free: nat, average: nat, low: nat, high: nat)
    requires 0 < low <= average <= high
    ensures free < (BALANCE_INTERVAL + 1) * low ==> free / average <= BALANCE_INTERVAL
    ensures free >= (BALANCE_INTERVAL + 1) * high ==> free / average > BALANCE_INTERVAL
  {
    var times := free / average;
    Euclid(free, average, times);
    if free < (BALANCE_INTERVAL + 1) * low && times > BALANCE_INTERVAL {
      TimesGrows(BALANCE_INTERVAL + 1, times, average);
    }
    if free >= (BALANCE_INTERVAL + 1) * high && times <= BALANCE_INTERVAL {
      TimesGrows(times + 1, BALANCE_INTERVAL + 1, average);
    }
  }

  lemma Euclid(free: nat, average: nat, times: nat)
    requires average > 0 && times == free / average
    ensures times * average <= free < (times + 1) * average
  {
  }
}
