/** What automatic rehashing costs in fhash/fhash_core.c, over any run of sets and deletes without iterators. */
module FhashCost {
  import opened FhashNode
  import opened Fhash

  /** The load of a table and the work done so far: `moved` counts the nodes all rehashes have moved. */
  datatype Load = Load(index: nat, slots: nat, sets: nat, moved: nat)

  /** A set of a new key, a set of a known key, a delete that found its key. */
  datatype Op = Insert | Update | Remove

  function AfterSet(l: Load, slots: nat): Load
    requires l.index > 0
  {
    var index := Grown(l.index, slots);
    Load(index, slots, l.sets + 1, l.moved + Moves(l.index, index, slots))
  }

  function Apply(l: Load, op: Op): Load
    requires l.index > 0
  {
    match op
    case Insert => AfterSet(l, l.slots + 1)
    case Update => AfterSet(l, l.slots)
    case Remove => l.(slots := if l.slots > 0 then l.slots - 1 else 0)
  }

  /** The load of a hash that has seen `sets` sets. */
  ghost function LoadOf(h: Fhash, sets: nat): Load
    reads h, h.current
  {
    Load(|h.current.mgrs|, |h.current.entries|, sets, h.moved)
  }

  /** The real operations drive the load as the steps say. */
  method SetSteps(h: Fhash, k: Key, v: Value, ghost sets: nat)
    requires h.Valid() && h.iterRefs == 0 && h.autoRehash && k != [] && v != []
    modifies h, h.current
    ensures h.Valid() && h.iterRefs == 0
    ensures LoadOf(h, sets + 1) == Apply(old(LoadOf(h, sets)), if k in old(h.View()) then Update else Insert)
  {
    ghost var entries := h.current.entries;
    OneMore(entries, k, v);
    h.Set(k, v);
    Alone(h.current.entries);
    Alone(entries);
  }

  lemma Alone(m: map<Key, Value>)
    ensures m + map[] == m
  {
  }

  lemma OneMore(m: map<Key, Value>, k: Key, v: Value)
    ensures |m[k := v]| == if k in m then |m| else |m| + 1
  {
    assert m[k := v].Keys == m.Keys + {k};
  }

  method DelSteps(h: Fhash, k: Key, ghost sets: nat)
    requires h.Valid() && k != [] && k in h.current.entries
    modifies h.current
    ensures h.Valid() && LoadOf(h, sets) == Apply(old(LoadOf(h, sets)), Remove)
  {
    ghost var entries := h.current.entries;
    h.Del(k);
    assert (entries - {k}).Keys == entries.Keys - {k};
  }

  /** The threshold test: the quotient exceeds 4 exactly from five keys per bucket on. */
  lemma Threshold(slots: nat, index: nat)
    requires index > 0
    ensures slots / index > AUTO_REHASH_THRESHOLD <==> slots >= 5 * index
  {
    var q, r := slots / index, slots % index;
    assert slots == index * q + r;
    if q >= 5 {
      assert index * q >= index * 5;
    } else {
      assert index * q <= index * 4;
    }
  }

  /** From five keys per bucket on the index doubles, up to the largest there is; below that it stays. */
  lemma GrownIs(index: nat, slots: nat)
    requires 0 < index <= UINT32_MAX
    ensures Grown(index, slots) ==
              if slots < 5 * index then index else if 2 * index <= UINT32_MAX then 2 * index else UINT32_MAX
  {
    Threshold(slots, index);
  }

  // ------------------------------------------------------------------ runs without iterators

  function Run(l: Load, ops: seq<Op>): Load
    requires l.index > 0
    decreases |ops|
  {
    if ops == [] then l
    else
      var m := Apply(l, ops[0]);
      if m.index == 0 then m else Run(m, ops[1..])
  }

  ghost predicate Inv(l: Load, start: nat) {
    && 0 < start <= l.index <= UINT32_MAX
    && l.slots <= l.sets
    && (l.index < UINT32_MAX ==> l.slots < 5 * l.index && l.moved <= 5 * (l.index - start))
    && l.moved <= 2 * l.sets
  }

  lemma ApplyInv(l: Load, op: Op, start: nat)
    requires Inv(l, start)
    ensures Inv(Apply(l, op), start)
  {
    var slots := if op.Insert? then l.slots + 1 else l.slots;
    Threshold(slots, l.index);
  }

  /** Over any run the table never holds five keys per bucket while it can still grow, and all rehashes
      together move at most two nodes per set. */
  lemma {:induction false} AmortisedCost(l: Load, ops: seq<Op>, start: nat)
    requires Inv(l, start)
    ensures Inv(Run(l, ops), start)
    ensures Run(l, ops).index < UINT32_MAX ==> Run(l, ops).slots < 5 * Run(l, ops).index
    ensures Run(l, ops).moved <= 2 * Run(l, ops).sets
    decreases |ops|
  {
    if ops != [] {
      ApplyInv(l, ops[0], start);
      AmortisedCost(Apply(l, ops[0]), ops[1..], start);
    }
  }

  /** A fresh table is such a starting point. */
  lemma FromCreation(index: nat, ops: seq<Op>)
    requires 0 < index <= UINT32_MAX
    ensures var l := Run(Load(index, 0, 0, 0), ops);
      (l.index < UINT32_MAX ==> l.slots < 5 * l.index) && l.moved <= 2 * l.sets
  {
    AmortisedCost(Load(index, 0, 0, 0), ops, index);
  }

  // ------------------------------------------------------------------ after the last iterator

  /** The release of the last iterator brings in all delayed pairs but doubles the index at most once. */
  method ReleaseSteps(h: Fhash)
    requires h.Valid() && h.iterRefs == 1 && h.autoRehash
    modifies h, h.current
    ensures h.Valid() && h.iterRefs == 0 && h.View() == old(h.View())
    ensures var index, keys := old(|h.current.mgrs|), |old(h.View())|;
      && |h.current.entries| == keys
      && |h.current.mgrs| == Grown(index, keys)
      && h.moved == old(h.moved) + (if Grown(index, keys) == index then 0 else keys)
  {
    h.IterRelease();
    Alone(h.current.entries);
  }

  /** So fewer than five keys are left on each bucket exactly if fewer than ten would have been without it. */
  lemma ReleaseLoadIff(index: nat, slots: nat)
    requires 0 < index <= UINT32_MAX / 2
    ensures slots < 5 * Grown(index, slots) <==> slots < 10 * index
  {
    GrownIs(index, slots);
  }

  /** If there are more, each set that follows doubles the index again and moves every node again. */
  lemma {:induction false} CatchingUp(l: Load, ops: seq<Op>)
    requires 0 < l.index && l.index * Power2(|ops|) <= UINT32_MAX && l.slots >= 5 * (l.index * Power2(|ops|))
    requires forall i :: 0 <= i < |ops| ==> ops[i].Update?
    ensures var m := Run(l, ops);
      m.index == l.index * Power2(|ops|) && m.slots == l.slots && m.moved == l.moved + |ops| * l.slots
    decreases |ops|
  {
    if ops != [] {
      var p := Power2(|ops| - 1);
      Doubling(l.index, p);
      GrownIs(l.index, l.slots);
      CatchingUp(Apply(l, ops[0]), ops[1..]);
      OneMoreTime(|ops|, l.slots);
    }
  }

  function Power2(n: nat): (p: nat)
    ensures p > 0
  {
    if n == 0 then 1 else 2 * Power2(n - 1)
  }

  lemma OneMoreTime(n: nat, slots: nat)
    requires n > 0
    ensures n * slots == slots + (n - 1) * slots
  {
  }

  lemma Doubling(index: nat, p: nat)
    requires index > 0
    ensures index * (2 * p) == (2 * index) * p
    ensures p > 0 ==> index * (2 * p) >= 2 * index
  {
  }

  /** That breaks the bound of two nodes per set: 400 keys come in with the release, two updates follow. */
  lemma CostlyCatchingUp(l: Load)
    requires l == Load(Grown(10, 400), 400, 400, Moves(10, Grown(10, 400), 400))
    ensures var m := Run(l, [Update, Update]); m.moved == 1200 && m.sets == 402
  {
    GrownIs(10, 400);
    CatchingUp(l, [Update, Update]);
    assert Power2(2) == 2 * Power2(1);
    assert [Update, Update][1..] == [Update] && [Update][1..] == [];
    assert Run(l, [Update, Update]) == Apply(Apply(l, Update), Update);
  }
}
