/** Iteration over a table of fhash/fhash_core.c while it is being changed.

    A live iterator only has a cursor.  What protects it is that, as long as iter_refs > 0, no slot moves and
    no key is added to the table: FhashTable.Stable, which every operation of Fhash guarantees in that time.
 */
module FhashIter {
  import opened Options
  import opened FhashNode
  import opened FhashTable

  datatype Cursor = Cursor(index: nat, slot: nat)
  datatype Pos = Pos(b: nat, i: nat)

  /** _hash_tbl_next: where the next valid node is, and the cursor afterwards. */
  function NextPos(mgrs: seq<Mgr>, c: Cursor): (Option<Pos>, Cursor)
    decreases |mgrs| - c.index
  {
    if c.index >= |mgrs| then (None, c)
    else
      var i := FirstValid(mgrs[c.index].slots, c.slot);
      if i < |mgrs[c.index].slots| then (Some(Pos(c.index, i)), Cursor(c.index, i + 1))
      else NextPos(mgrs, Cursor(c.index + 1, 0))
  }

  /** The cursor has gone past slot `i` of bucket `b`. */
  predicate Before(b: int, i: int, c: Cursor) {
    b < c.index || (b == c.index && i < c.slot)
  }

  predicate ValidAt(mgrs: seq<Mgr>, b: int, i: int) {
    0 <= b < |mgrs| && 0 <= i < |mgrs[b].slots| && mgrs[b].slots[i].valid
  }

  /** One step finds the first valid slot the cursor has not passed, and passes no other valid slot. */
  lemma {:induction false} NextPosIs(mgrs: seq<Mgr>, c: Cursor)
    ensures var (p, c') := NextPos(mgrs, c);
      && (p.None? ==> c'.index >= |mgrs|)
      && (p.Some? ==>
            && ValidAt(mgrs, p.value.b, p.value.i) && !Before(p.value.b, p.value.i, c)
            && c' == Cursor(p.value.b, p.value.i + 1))
      && (forall b, i :: Before(b, i, c) ==> Before(b, i, c'))
      && (forall b, i :: ValidAt(mgrs, b, i) && Before(b, i, c') && !Before(b, i, c) ==> p == Some(Pos(b, i)))
    decreases |mgrs| - c.index
  {
    if c.index < |mgrs| {
      FirstValidIs(mgrs[c.index].slots, c.slot);
      if FirstValid(mgrs[c.index].slots, c.slot) >= |mgrs[c.index].slots| {
        NextPosIs(mgrs, Cursor(c.index + 1, 0));
      }
    }
  }

  // ------------------------------------------------------------------ a whole walk

  /** An iterator's life so far: the table when it was made and now, its cursor, the keys it has yielded, and
      every key that was missing from the table at some moment since. */
  datatype Walk = Walk(born: seq<Mgr>, mgrs: seq<Mgr>, cursor: Cursor, seen: seq<Key>, absent: iset<Key>, done: bool)

  datatype Step = Advance | Change(mgrs: seq<Mgr>)

  ghost predicate InTable(mgrs: seq<Mgr>, k: Key) {
    exists b, i :: At(mgrs, b, i, k)
  }

  ghost function Missing(mgrs: seq<Mgr>): iset<Key> {
    iset k: Key | !InTable(mgrs, k)
  }

  ghost function Start(mgrs: seq<Mgr>): Walk {
    Walk(mgrs, mgrs, Cursor(0, 0), [], Missing(mgrs), false)
  }

  ghost predicate Allowed(w: Walk, st: Step) {
    st.Change? ==> Stable(w.mgrs, st.mgrs)
  }

  ghost function Apply(w: Walk, st: Step): Walk {
    match st
    case Change(mgrs) => w.(mgrs := mgrs, absent := w.absent + Missing(mgrs))
    case Advance =>
      var (p, c) := NextPos(w.mgrs, w.cursor);
      if p.Some? && p.value.b < |w.mgrs| && p.value.i < |w.mgrs[p.value.b].slots|
      then w.(cursor := c, seen := w.seen + [w.mgrs[p.value.b].slots[p.value.i].key])
      else w.(cursor := c, done := true)
  }

  ghost predicate Run(w: Walk, steps: seq<Step>, w': Walk)
    decreases |steps|
  {
    if steps == [] then w == w'
    else Allowed(w, steps[0]) && Run(Apply(w, steps[0]), steps[1..], w')
  }

  ghost predicate KeysOnce(mgrs: seq<Mgr>) {
    forall b, i, c, j, k :: At(mgrs, b, i, k) && At(mgrs, c, j, k) ==> b == c && i == j
  }

  ghost predicate SeenBefore(w: Walk, k: Key) {
    exists b, i :: At(w.born, b, i, k) && Before(b, i, w.cursor)
  }

  ghost predicate Inv(w: Walk) {
    && KeysOnce(w.born) && Stable(w.born, w.mgrs)
    && (forall n, m :: 0 <= n < m < |w.seen| ==> w.seen[n] != w.seen[m])
    && (forall k :: k in w.seen ==> SeenBefore(w, k))
    && (forall k :: InTable(w.mgrs, k) || k in w.absent)
    && (forall b, i, k :: At(w.born, b, i, k) && Before(b, i, w.cursor) ==> k in w.seen || k in w.absent)
    && (w.done ==> w.cursor.index >= |w.born|)
  }

  lemma StableAt(x: seq<Mgr>, y: seq<Mgr>, b: int, i: int, k: Key)
    requires Stable(x, y) && At(y, b, i, k)
    ensures At(x, b, i, k)
  {
    assert SlotsStable(x[b].slots, y[b].slots);
  }

  lemma ChangeInv(w: Walk, mgrs: seq<Mgr>)
    requires Inv(w) && Stable(w.mgrs, mgrs)
    ensures Inv(Apply(w, Change(mgrs)))
  {
    var w' := Apply(w, Change(mgrs));
    StableTrans(w.born, w.mgrs, mgrs);
    forall k | k in w'.seen ensures SeenBefore(w', k) {
      assert SeenBefore(w, k);
    }
  }

  /** A valid slot that is reached holds a key of the original table that was not yielded before. */
  lemma ReachedKeyIsNew(w: Walk, p: Pos)
    requires Inv(w) && ValidAt(w.mgrs, p.b, p.i) && !Before(p.b, p.i, w.cursor)
    ensures At(w.born, p.b, p.i, w.mgrs[p.b].slots[p.i].key)
    ensures w.mgrs[p.b].slots[p.i].key !in w.seen
  {
    var k := w.mgrs[p.b].slots[p.i].key;
    StableAt(w.born, w.mgrs, p.b, p.i, k);
    assert k in w.seen ==> SeenBefore(w, k);
  }

  /** A slot that is passed without being yielded had lost its key. */
  lemma PassedKeyIsAbsent(w: Walk, b: int, i: int, k: Key)
    requires Inv(w) && At(w.born, b, i, k) && !ValidAt(w.mgrs, b, i)
    ensures k in w.absent
  {
    if InTable(w.mgrs, k) {
      var c, j :| At(w.mgrs, c, j, k);
      StableAt(w.born, w.mgrs, c, j, k);
    }
  }

  lemma AdvanceInv(w: Walk)
    requires Inv(w)
    ensures Inv(Apply(w, Advance))
  {
    var w' := Apply(w, Advance);
    NextPosIs(w.mgrs, w.cursor);
    var (p, c) := NextPos(w.mgrs, w.cursor);
    if p.Some? {
      ReachedKeyIsNew(w, p.value);
    }
    forall k | k in w'.seen ensures SeenBefore(w', k) {
      if k in w.seen {
        assert SeenBefore(w, k);
        var b, i :| At(w.born, b, i, k) && Before(b, i, w.cursor);
        assert Before(b, i, w'.cursor);
      } else {
        assert At(w.born, p.value.b, p.value.i, k) && Before(p.value.b, p.value.i, w'.cursor);
      }
    }
    forall b, i, k | At(w.born, b, i, k) && Before(b, i, w'.cursor) ensures k in w'.seen || k in w'.absent {
      if !Before(b, i, w.cursor) {
        if ValidAt(w.mgrs, b, i) {
          assert SlotsStable(w.born[b].slots, w.mgrs[b].slots);
          assert p == Some(Pos(b, i));
          assert w'.seen[|w.seen|] == k;
        } else {
          PassedKeyIsAbsent(w, b, i, k);
        }
      }
    }
  }

  lemma {:induction false} RunInv(w: Walk, steps: seq<Step>, w': Walk)
    requires Inv(w) && Run(w, steps, w')
    ensures Inv(w') && w'.born == w.born
    decreases |steps|
  {
    if steps != [] {
      match steps[0] {
        case Advance => AdvanceInv(w);
        case Change(mgrs) => ChangeInv(w, mgrs);
      }
      RunInv(Apply(w, steps[0]), steps[1..], w');
    }
  }

  lemma StartInv(mgrs: seq<Mgr>, hash: Key -> nat, m: map<Key, Value>)
    requires TableHolds(mgrs, hash, m)
    ensures Inv(Start(mgrs))
  {
    forall b, i, c, j, k | At(mgrs, b, i, k) && At(mgrs, c, j, k) ensures b == c && i == j {
      OnePosition(mgrs, hash, m, b, i, c, j, k);
    }
  }

  /** At every moment of a walk: nothing was yielded twice, everything yielded was there when the iterator was
      made, and whatever the cursor has passed was yielded unless it had been missing.
      At the end: every key that was there all the time was yielded exactly once. */
  lemma WalkYieldsAll(mgrs: seq<Mgr>, hash: Key -> nat, m: map<Key, Value>, steps: seq<Step>, w: Walk)
    requires TableHolds(mgrs, hash, m) && Run(Start(mgrs), steps, w)
    ensures forall i, j :: 0 <= i < j < |w.seen| ==> w.seen[i] != w.seen[j]
    ensures forall k :: k in w.seen ==> k in m
    ensures forall b, i, k :: At(mgrs, b, i, k) && Before(b, i, w.cursor) ==> k in w.seen || k in w.absent
    ensures w.done ==> forall k :: k in m ==> k in w.seen || k in w.absent
  {
    StartInv(mgrs, hash, m);
    RunInv(Start(mgrs), steps, w);
    forall k | k in w.seen ensures k in m {
      assert SeenBefore(w, k);
      var b, i :| At(w.born, b, i, k) && Before(b, i, w.cursor);
      PositionKey(mgrs, hash, m, b, i, k);
    }
    if w.done {
      forall k | k in m ensures k in w.seen || k in w.absent {
        var b, i := KeyPosition(mgrs, hash, m, k);
        assert Before(b, i, w.cursor);
      }
    }
  }

  function Advances(steps: seq<Step>): nat {
    if steps == [] then 0 else (if steps[0].Advance? then 1 else 0) + Advances(steps[1..])
  }

  /** Every step of the iterator yields a key, until one finds nothing. */
  lemma {:induction false} EachAdvanceYields(w: Walk, steps: seq<Step>, w': Walk)
    requires Run(w, steps, w')
    ensures w.done ==> w'.done
    ensures !w'.done ==> |w'.seen| == |w.seen| + Advances(steps)
    decreases |steps|
  {
    if steps != [] {
      EachAdvanceYields(Apply(w, steps[0]), steps[1..], w');
    }
  }

  lemma {:induction false} DistinctFit(seen: seq<Key>, keys: set<Key>)
    requires forall i, j :: 0 <= i < j < |seen| ==> seen[i] != seen[j]
    requires forall k :: k in seen ==> k in keys
    ensures |seen| <= |keys|
    decreases |seen|
  {
    if seen != [] {
      var front, last := seen[..|seen| - 1], seen[|seen| - 1];
      assert last in seen;
      forall k | k in front ensures k in keys - {last} {
        assert k in seen;
      }
      DistinctFit(front, keys - {last});
    }
  }

  /** A walk ends: an iterator that has been asked once more than there were keys when it was made has finished,
      whatever was set and deleted in between; and before that it has yielded one key each time. */
  lemma WalkEnds(mgrs: seq<Mgr>, hash: Key -> nat, m: map<Key, Value>, steps: seq<Step>, w: Walk)
    requires TableHolds(mgrs, hash, m) && Run(Start(mgrs), steps, w)
    ensures Advances(steps) > |m| ==> w.done
    ensures !w.done ==> |w.seen| == Advances(steps) <= |m|
  {
    WalkYieldsAll(mgrs, hash, m, steps, w);
    EachAdvanceYields(Start(mgrs), steps, w);
    DistinctFit(w.seen, m.Keys);
  }
}
