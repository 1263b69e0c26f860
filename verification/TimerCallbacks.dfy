/** A pass of fev/fev_tmsvc_sl_mod.c whose callbacks use the timer service themselves.

    A callback may delete and reset any timer, its own included, and add timers; added timers go to the end of
    the list the pass is still working on, so the same pass serves them.
 */
module TimerCallbacks {
  import opened Timers

  /** Timers are named by their place in the list. */
  datatype Act = Delete(k: nat) | Reset(k: nat, clock: Timespec) | Resetn(k: nat, clock: Timespec, expiration: nat)
               | Add(timer: Timer)

  /** A pass under way: all timers in list order, how many have been served, and which of these are kept. */
  datatype Progress = Progress(timers: seq<Timer>, next: nat, kept: seq<nat>, expired: nat)

  function Begin(ts: seq<Timer>): Progress { Progress(ts, 0, [], 0) }

  function Do(ts: seq<Timer>, a: Act): seq<Timer> {
    match a
    case Delete(k) => if k < |ts| then ts[k := ts[k].(valid := false)] else ts
    case Reset(k, clock) => if k < |ts| then ts[k := ts[k].(start := clock)] else ts
    case Resetn(k, clock, e) => if k < |ts| then ts[k := ts[k].(start := clock, expiration := e)] else ts
    case Add(t) => ts + [t]
  }

  /** What a callback does, in order. */
  function DoAll(ts: seq<Timer>, acts: seq<Act>): (r: seq<Timer>)
    ensures |r| >= |ts| && forall k :: 0 <= k < |ts| ==> r[k].interval == ts[k].interval
    ensures forall k :: 0 <= k < |ts| && !ts[k].valid ==> !r[k].valid
    decreases |acts|
  {
    if acts == [] then ts else Do(DoAll(ts, acts[..|acts| - 1]), acts[|acts| - 1])
  }

  predicate Due(t: Timer, now: Timespec) { Alive(t) && TimedOut(t, now) }

  /** The loop body of _process for the next timer, whose callback, if it fires, does `acts`. */
  function Serve(p: Progress, now: Timespec, acts: seq<Act>): Progress
    requires p.next < |p.timers|
  {
    var t := p.timers[p.next];
    if !Alive(t) then p.(next := p.next + 1)
    else if !TimedOut(t, now) then p.(next := p.next + 1, kept := p.kept + [p.next])
    else
      var ts := DoAll(p.timers, acts);
      Progress(ts[p.next := Rearmed(ts[p.next])], p.next + 1,
               if t.interval > 0 then p.kept + [p.next] else p.kept, p.expired + 1)
  }

  /** The pass may go from `p` to `q` with these callbacks, one entry for every timer served. */
  ghost predicate Run(p: Progress, now: Timespec, cbs: seq<seq<Act>>, q: Progress)
    decreases |cbs|
  {
    if cbs == [] then p == q
    else p.next < |p.timers| && Run(Serve(p, now, cbs[0]), now, cbs[1..], q)
  }

  // ------------------------------------------------------------------ order and deletion

  ghost predicate Ascending(p: Progress) {
    && p.next <= |p.timers|
    && (forall m, n :: 0 <= m < n < |p.kept| ==> p.kept[m] < p.kept[n])
    && (forall m :: 0 <= m < |p.kept| ==> p.kept[m] < p.next)
  }

  /** Whatever the callbacks do, the survivors keep their order and no timer is served twice. */
  lemma {:induction false} OrderKept(p: Progress, now: Timespec, cbs: seq<seq<Act>>, q: Progress)
    requires Ascending(p) && Run(p, now, cbs, q)
    ensures Ascending(q) && p.kept <= q.kept && q.next == p.next + |cbs|
    ensures forall m :: |p.kept| <= m < |q.kept| ==> q.kept[m] >= p.next
    decreases |cbs|
  {
    if cbs != [] {
      OrderKept(Serve(p, now, cbs[0]), now, cbs[1..], q);
    }
  }

  /** A timer that some callback deletes before its turn does not fire in this pass and does not survive it. */
  lemma {:induction false} DeletedIsDropped(p: Progress, now: Timespec, cbs: seq<seq<Act>>, q: Progress, k: nat)
    requires Ascending(p) && Run(p, now, cbs, q)
    requires p.next <= k < |p.timers| && !p.timers[k].valid
    ensures k < |q.timers| && !q.timers[k].valid && k !in q.kept
    ensures q.timers[k].triggered == p.timers[k].triggered
    decreases |cbs|
  {
    if cbs != [] {
      var r := Serve(p, now, cbs[0]);
      ActsKeepTriggered(p.timers, cbs[0]);
      OrderKept(p, now, [cbs[0]], r) by { assert [cbs[0]][1..] == []; }
      if k == p.next {
        OrderKept(r, now, cbs[1..], q);
        ServedStays(r, now, cbs[1..], q, k);
      } else {
        DeletedIsDropped(r, now, cbs[1..], q, k);
      }
    }
  }

  lemma {:induction false} ActsKeepTriggered(ts: seq<Timer>, acts: seq<Act>)
    ensures forall k :: 0 <= k < |ts| ==> DoAll(ts, acts)[k].triggered == ts[k].triggered
    decreases |acts|
  {
    if acts != [] {
      ActsKeepTriggered(ts, acts[..|acts| - 1]);
    }
  }

  /** A served timer is not served again: it stays kept or not, triggered or not, and invalid if it was. */
  lemma {:induction false} ServedStays(p: Progress, now: Timespec, cbs: seq<seq<Act>>, q: Progress, k: nat)
    requires Run(p, now, cbs, q) && k < p.next <= |p.timers|
    ensures k < |q.timers| && q.timers[k].triggered == p.timers[k].triggered
    ensures !p.timers[k].valid ==> !q.timers[k].valid
    ensures k in q.kept <==> k in p.kept
    decreases |cbs|
  {
    if cbs != [] {
      ActsKeepTriggered(p.timers, cbs[0]);
      ServedStays(Serve(p, now, cbs[0]), now, cbs[1..], q, k);
    }
  }

  // ------------------------------------------------------------------ what callbacks achieve

  /** The act is about the timer at place `k`. */
  predicate Touches(a: Act, k: nat) {
    match a
    case Delete(j) => j == k
    case Reset(j, _) => j == k
    case Resetn(j, _, _) => j == k
    case Add(_) => false
  }

  predicate Untouched(acts: seq<Act>, k: nat) {
    forall i :: 0 <= i < |acts| ==> !Touches(acts[i], k)
  }

  /** The timers as the first `n` acts leave them. */
  function Midway(ts: seq<Timer>, acts: seq<Act>, n: nat): seq<Timer>
    requires n <= |acts|
  {
    DoAll(ts, acts[..n])
  }

  /** After its last mention a timer stays as it is. */
  lemma {:induction false} LaterActs(ts: seq<Timer>, acts: seq<Act>, n: nat, k: nat)
    requires n <= |acts| && k < |Midway(ts, acts, n)| && Untouched(acts[n..], k)
    ensures k < |DoAll(ts, acts)| && DoAll(ts, acts)[k] == Midway(ts, acts, n)[k]
    decreases |acts|
  {
    if n == |acts| {
      assert acts[..n] == acts;
    } else {
      var front := acts[..|acts| - 1];
      assert front[..n] == acts[..n] && front[n..] == acts[n..][..|front| - n];
      LaterActs(ts, front, n, k);
      assert acts[n..][|front| - n] == acts[|front|];
    }
  }

  /** A deleted timer stays deleted, whatever follows. */
  lemma {:induction false} LaterActsInvalid(ts: seq<Timer>, acts: seq<Act>, n: nat, k: nat)
    requires n <= |acts| && k < |Midway(ts, acts, n)| && !Midway(ts, acts, n)[k].valid
    ensures k < |DoAll(ts, acts)| && !DoAll(ts, acts)[k].valid
    decreases |acts|
  {
    if n == |acts| {
      assert acts[..n] == acts;
    } else {
      assert acts[..|acts| - 1][..n] == acts[..n];
      LaterActsInvalid(ts, acts[..|acts| - 1], n, k);
    }
  }

  lemma NextAct(ts: seq<Timer>, acts: seq<Act>, i: nat)
    requires i < |acts|
    ensures Midway(ts, acts, i + 1) == Do(Midway(ts, acts, i), acts[i])
  {
    assert acts[..i + 1][..i] == acts[..i];
  }

  /** The callback of the next timer runs and, in its act `i`, does `a`. */
  ghost predicate Does(p: Progress, now: Timespec, cbs: seq<seq<Act>>, i: nat, a: Act) {
    && Ascending(p) && p.next < |p.timers| && Due(p.timers[p.next], now)
    && cbs != [] && i < |cbs[0]| && cbs[0][i] == a
  }

  /** A timer whose turn is still to come and that some callback deletes does not fire in this pass and does not
      survive it, even if it is new or reset later. */
  lemma DeleteTakesEffect(p: Progress, now: Timespec, cbs: seq<seq<Act>>, q: Progress, k: nat, i: nat)
    requires Run(p, now, cbs, q) && Does(p, now, cbs, i, Delete(k))
    requires p.next < k < |Midway(p.timers, cbs[0], i)|
    ensures k < |q.timers| && !q.timers[k].valid && k !in q.kept
    ensures k < |p.timers| ==> q.timers[k].triggered == p.timers[k].triggered
  {
    var r := Serve(p, now, cbs[0]);
    NextAct(p.timers, cbs[0], i);
    LaterActsInvalid(p.timers, cbs[0], i + 1, k);
    ActsKeepTriggered(p.timers, cbs[0]);
    OrderKept(p, now, [cbs[0]], r) by { assert [cbs[0]][1..] == []; }
    DeletedIsDropped(r, now, cbs[1..], q, k);
  }

  /** From `p` on no callback is about timer `k` before that is served. */
  predicate LeftAlone(cbs: seq<seq<Act>>, turns: nat, k: nat) {
    turns < |cbs| && forall i :: 0 <= i < turns ==> Untouched(cbs[i], k)
  }

  /** The pass does to timer `k`, found as `t`, what a plain pass does. */
  predicate Served(q: Progress, k: nat, t: Timer, now: Timespec) {
    && k < |q.timers| && (k in q.kept <==> After(t, now).Some?)
    && q.timers[k].triggered == (t.triggered || Due(t, now))
  }

  /** A timer that is left alone until its turn is served as it stands. */
  lemma {:induction false} ServedAsFound(p: Progress, now: Timespec, cbs: seq<seq<Act>>, q: Progress, k: nat)
    requires Ascending(p) && Run(p, now, cbs, q) && p.next <= k < |p.timers| && LeftAlone(cbs, k - p.next, k)
    ensures Served(q, k, p.timers[k], now)
    decreases |cbs|
  {
    var r := Serve(p, now, cbs[0]);
    OrderKept(p, now, [cbs[0]], r) by { assert [cbs[0]][1..] == []; }
    ActsKeepTriggered(p.timers, cbs[0]);
    if k == p.next {
      ServedStays(r, now, cbs[1..], q, k);
    } else {
      assert cbs[0][0..] == cbs[0];
      LaterActs(p.timers, cbs[0], 0, k);
      assert cbs[0][..0] == [];
      forall i | 0 <= i < k - r.next ensures Untouched(cbs[1..][i], k) {
        assert cbs[1..][i] == cbs[i + 1];
      }
      ServedAsFound(r, now, cbs[1..], q, k);
    }
  }

  /** The same when the callback of the next timer is about it, as the first `n` acts of that leave it. */
  lemma ServedAsLeft(p: Progress, now: Timespec, cbs: seq<seq<Act>>, q: Progress, k: nat, n: nat)
    requires Ascending(p) && Run(p, now, cbs, q) && p.next < |p.timers| && Due(p.timers[p.next], now)
    requires cbs != [] && n <= |cbs[0]| && p.next < k < |Midway(p.timers, cbs[0], n)|
    requires Untouched(cbs[0][n..], k) && LeftAlone(cbs[1..], k - p.next - 1, k)
    ensures Served(q, k, Midway(p.timers, cbs[0], n)[k], now)
  {
    LaterActs(p.timers, cbs[0], n, k);
    var r := Serve(p, now, cbs[0]);
    OrderKept(p, now, [cbs[0]], r) by { assert [cbs[0]][1..] == []; }
    ServedAsFound(r, now, cbs[1..], q, k);
  }

  /** Nobody is about timer `k` between act `i` of the next callback and the turn of `k`. */
  predicate LastWord(p: Progress, cbs: seq<seq<Act>>, i: nat, k: nat) {
    && cbs != [] && i < |cbs[0]| && Untouched(cbs[0][i + 1..], k)
    && p.next < k && LeftAlone(cbs[1..], k - p.next - 1, k)
  }

  /** A timer reset before its turn is served in this pass by its new start. */
  lemma ResetTakesEffect(p: Progress, now: Timespec, cbs: seq<seq<Act>>, q: Progress, k: nat, i: nat, clock: Timespec)
    requires Run(p, now, cbs, q) && Does(p, now, cbs, i, Reset(k, clock)) && LastWord(p, cbs, i, k)
    requires k < |Midway(p.timers, cbs[0], i)|
    ensures Served(q, k, Midway(p.timers, cbs[0], i)[k].(start := clock), now)
  {
    NextAct(p.timers, cbs[0], i);
    ServedAsLeft(p, now, cbs, q, k, i + 1);
  }

  /** ... and by its new expiration, if it was given one. */
  lemma ResetnTakesEffect(p: Progress, now: Timespec, cbs: seq<seq<Act>>, q: Progress, k: nat, i: nat,
                          clock: Timespec, e: nat)
    requires Run(p, now, cbs, q) && Does(p, now, cbs, i, Resetn(k, clock, e)) && LastWord(p, cbs, i, k)
    requires k < |Midway(p.timers, cbs[0], i)|
    ensures Served(q, k, Midway(p.timers, cbs[0], i)[k].(start := clock, expiration := e), now)
  {
    NextAct(p.timers, cbs[0], i);
    ServedAsLeft(p, now, cbs, q, k, i + 1);
  }

  /** A timer added during the pass is served in it, behind all that were there. */
  lemma AddTakesEffect(p: Progress, now: Timespec, cbs: seq<seq<Act>>, q: Progress, i: nat, t: Timer)
    requires Run(p, now, cbs, q) && Does(p, now, cbs, i, Add(t))
    requires LastWord(p, cbs, i, |Midway(p.timers, cbs[0], i)|)
    ensures Served(q, |Midway(p.timers, cbs[0], i)|, t, now)
  {
    NextAct(p.timers, cbs[0], i);
    ServedAsLeft(p, now, cbs, q, |Midway(p.timers, cbs[0], i)|, i + 1);
  }

  /** A timer that resets itself in its own callback is re-armed on top of that: it is next due two intervals
      after the reset; and without an interval it is destroyed, reset or not. */
  lemma OwnReset(p: Progress, now: Timespec, acts: seq<Act>, clock: Timespec)
    requires p.next < |p.timers| && Due(p.timers[p.next], now) && Normal(clock)
    requires acts != [] && acts[|acts| - 1] == Reset(p.next, clock)
    ensures var t, r := p.timers[p.next], Serve(p, now, acts);
      if t.interval > 0
      then r.kept == p.kept + [p.next] && Deadline(r.timers[p.next]) == Nanos(clock) + 2 * t.interval * NS_PER_MS
      else r.kept == p.kept
  {
    var u := DoAll(p.timers, acts)[p.next];
    if u.interval > 0 {
      var t := u.(expiration := u.interval);
      RearmedMoves(t);
    }
  }

  // ------------------------------------------------------------------ callbacks that do nothing

  /** `q` is where Timers.Pass is after the first `n` timers. */
  ghost predicate AsPass(ts: seq<Timer>, n: nat, now: Timespec, q: Progress)
    requires n <= |ts|
  {
    && q.kept == Kept(ts[..n], now) && q.expired == Expired(ts[..n], now)
    && |q.timers| == |ts| && (forall k :: n <= k < |ts| ==> q.timers[k] == ts[k])
    && q.next == n && |q.kept| == |Pass(ts[..n], now)|
    && forall m :: 0 <= m < |q.kept| ==> q.kept[m] < n && q.timers[q.kept[m]] == Pass(ts[..n], now)[m]
  }

  lemma SilentStep(ts: seq<Timer>, n: nat, now: Timespec, r: Progress)
    requires n < |ts| && AsPass(ts, n, now, r)
    ensures AsPass(ts, n + 1, now, Serve(r, now, []))
  {
    hide TimedOut, Rearmed;
    var before, after := ts[..n], ts[..n + 1];
    assert after[..n] == before && after[n] == ts[n] == r.timers[n];
    var last := After(ts[n], now);
    assert Pass(after, now) == Pass(before, now) + (if last.Some? then [last.value] else []);
    assert Kept(after, now) == Kept(before, now) + (if last.Some? then [n] else []);
  }

  /** With callbacks that do nothing this is the pass of Timers, timer by timer. */
  lemma {:induction false} SilentIsPass(ts: seq<Timer>, now: Timespec, cbs: seq<seq<Act>>, q: Progress)
    requires |cbs| <= |ts| && Run(Begin(ts), now, cbs, q)
    requires forall i :: 0 <= i < |cbs| ==> cbs[i] == []
    ensures AsPass(ts, |cbs|, now, q)
    decreases |cbs|
  {
    hide AsPass, Serve;
    if cbs == [] {
      assert AsPass(ts, 0, now, q) by { SilentBegin(ts, now); }
    } else {
      var r := RunSplit(Begin(ts), now, cbs, q);
      SilentIsPass(ts, now, cbs[..|cbs| - 1], r);
      SilentStep(ts, |cbs| - 1, now, r);
    }
  }

  lemma SilentBegin(ts: seq<Timer>, now: Timespec)
    ensures AsPass(ts, 0, now, Begin(ts))
  {
  }

  /** The last step of a run. */
  lemma {:induction false} RunSplit(p: Progress, now: Timespec, cbs: seq<seq<Act>>, q: Progress) returns (r: Progress)
    requires Run(p, now, cbs, q) && cbs != []
    ensures Run(p, now, cbs[..|cbs| - 1], r) && r.next < |r.timers| && q == Serve(r, now, cbs[|cbs| - 1])
    decreases |cbs|
  {
    if |cbs| == 1 {
      r := p;
      assert cbs[1..] == [];
    } else {
      r := RunSplit(Serve(p, now, cbs[0]), now, cbs[1..], q);
      assert cbs[1..][..|cbs| - 2] == cbs[..|cbs| - 1][1..];
    }
  }

  // ------------------------------------------------------------------ when a pass ends

  /** A timer started during the pass is due in it exactly if it has no delay and the clock has not moved. */
  lemma StartedIsDueIff(t: Timer, now: Timespec)
    requires Normal(now) && Normal(t.start) && Nanos(t.start) >= Nanos(now) && t.expiration >= 0
    ensures TimedOut(t, now) <==> t.expiration == 0 && t.start == now
  {
    var nsec := now.nsec - t.start.nsec;
    assert Quotient(nsec, NS_PER_MS) * NS_PER_MS <= nsec || nsec < 0;
    assert t.start.sec >= now.sec;
  }

  /** The callback starts nothing that is already due. */
  predicate Patient(ts: seq<Timer>, now: Timespec, acts: seq<Act>) {
    forall i :: 0 <= i < |acts| ==>
      match acts[i]
      case Delete(_) => true
      case Add(t) => !TimedOut(t, now)
      case Reset(k, clock) => Later(DoAll(ts, acts[..i]), k, clock, now)
      case Resetn(k, clock, e) => k < |DoAll(ts, acts[..i])| ==>
        !TimedOut(DoAll(ts, acts[..i])[k].(start := clock, expiration := e), now)
  }

  predicate Later(ts: seq<Timer>, k: nat, clock: Timespec, now: Timespec) {
    k < |ts| ==> !TimedOut(ts[k].(start := clock), now)
  }

  function DueFrom(ts: seq<Timer>, i: nat, now: Timespec): nat
    decreases |ts| - i
  {
    if i >= |ts| then 0 else (if Due(ts[i], now) then 1 else 0) + DueFrom(ts, i + 1, now)
  }

  lemma {:induction false} FewerDue(ts: seq<Timer>, ts': seq<Timer>, i: nat, now: Timespec)
    requires |ts| <= |ts'|
    requires forall k :: i <= k < |ts'| && Due(ts'[k], now) ==> k < |ts| && Due(ts[k], now)
    ensures DueFrom(ts', i, now) <= DueFrom(ts, i, now)
    decreases |ts'| - i
  {
    if i < |ts'| {
      FewerDue(ts, ts', i + 1, now);
    }
  }

  lemma PatientPrefix(ts: seq<Timer>, now: Timespec, acts: seq<Act>, n: nat)
    requires Patient(ts, now, acts) && n <= |acts|
    ensures Patient(ts, now, acts[..n])
  {
    forall i | 0 <= i < n ensures acts[..n][..i] == acts[..i] && acts[..n][i] == acts[i] {
    }
  }

  /** Patient callbacks make no timer due. */
  lemma {:induction false} PatientMakesNoneDue(ts: seq<Timer>, now: Timespec, acts: seq<Act>)
    requires Patient(ts, now, acts)
    ensures forall k :: 0 <= k < |DoAll(ts, acts)| && Due(DoAll(ts, acts)[k], now) ==> k < |ts| && Due(ts[k], now)
    decreases |acts|
  {
    if acts != [] {
      PatientPrefix(ts, now, acts, |acts| - 1);
      PatientMakesNoneDue(ts, now, acts[..|acts| - 1]);
      var a := acts[|acts| - 1];
      assert a.Reset? ==> Later(DoAll(ts, acts[..|acts| - 1]), a.k, a.clock, now);
    }
  }

  function Adds(acts: seq<Act>): nat {
    if acts == [] then 0 else Adds(acts[..|acts| - 1]) + (if acts[|acts| - 1].Add? then 1 else 0)
  }

  lemma {:induction false} AddsLengthen(ts: seq<Timer>, acts: seq<Act>)
    ensures |DoAll(ts, acts)| == |ts| + Adds(acts)
    decreases |acts|
  {
    if acts != [] {
      AddsLengthen(ts, acts[..|acts| - 1]);
    }
  }

  /** All callbacks of the run are patient and add at most `m` timers each. */
  ghost predicate AllPatient(p: Progress, now: Timespec, cbs: seq<seq<Act>>, m: nat)
    decreases |cbs|
  {
    cbs != [] && p.next < |p.timers| ==>
      && Patient(p.timers, now, cbs[0]) && Adds(cbs[0]) <= m
      && AllPatient(Serve(p, now, cbs[0]), now, cbs[1..], m)
  }

  /** An upper bound on the timers a pass still serves. */
  function Ahead(p: Progress, now: Timespec, m: nat): int {
    |p.timers| - p.next + m * DueFrom(p.timers, p.next, now)
  }

  lemma ServeGetsAhead(p: Progress, now: Timespec, acts: seq<Act>, m: nat)
    requires p.next < |p.timers| && Patient(p.timers, now, acts) && Adds(acts) <= m
    ensures Ahead(Serve(p, now, acts), now, m) < Ahead(p, now, m)
  {
    hide Patient, TimedOut;
    var d := DueFrom(p.timers, p.next + 1, now);
    if Due(p.timers[p.next], now) {
      AddsLengthen(p.timers, acts);
      ServedNotDue(p, now, acts);
      Cheaper(m, DueFrom(Serve(p, now, acts).timers, p.next + 1, now), d, Adds(acts));
    }
  }

  lemma ServedNotDue(p: Progress, now: Timespec, acts: seq<Act>)
    requires p.next < |p.timers| && Patient(p.timers, now, acts) && Due(p.timers[p.next], now)
    ensures DueFrom(Serve(p, now, acts).timers, p.next + 1, now) <= DueFrom(p.timers, p.next + 1, now)
  {
    hide Patient, TimedOut, DueFrom;
    PatientMakesNoneDue(p.timers, now, acts);
    FewerDue(p.timers, Serve(p, now, acts).timers, p.next + 1, now);
  }

  lemma Cheaper(m: nat, a: nat, d: nat, adds: nat)
    requires a <= d && adds <= m
    ensures adds + m * a <= m * (1 + d)
  {
    assert m * (1 + d) == m + m * d;
    assert m * (d - a) >= 0;
    assert m * d == m * a + m * (d - a);
  }

  /** With patient callbacks a pass ends, after a number of timers that can be told beforehand. */
  lemma {:induction false} PatientPassEnds(p: Progress, now: Timespec, cbs: seq<seq<Act>>, q: Progress, m: nat)
    requires p.next <= |p.timers| && Run(p, now, cbs, q) && AllPatient(p, now, cbs, m)
    ensures |cbs| <= Ahead(p, now, m)
    decreases |cbs|
  {
    if cbs != [] {
      ServeGetsAhead(p, now, cbs[0], m);
      PatientPassEnds(Serve(p, now, cbs[0]), now, cbs[1..], q, m);
    }
  }

  // ------------------------------------------------------------------ and when it need not

  /** Every callback adds at most one timer, and that like `added`. */
  predicate AddsOnly(cbs: seq<seq<Act>>, added: Timer) {
    forall i :: 0 <= i < |cbs| ==> cbs[i] == [] || cbs[i] == [Add(added)]
  }

  lemma AddOne(ts: seq<Timer>, t: Timer)
    ensures DoAll(ts, [Add(t)]) == ts + [t] && DoAll(ts, []) == ts && Adds([Add(t)]) == 1
  {
    assert [Add(t)][..0] == [];
    assert DoAll(ts, [Add(t)][..0]) == ts;
    assert Adds([Add(t)][..0]) == 0;
  }

  lemma {:induction false} AddsOnlyPatient(p: Progress, now: Timespec, cbs: seq<seq<Act>>, added: Timer)
    requires AddsOnly(cbs, added) && !TimedOut(added, now)
    ensures AllPatient(p, now, cbs, 1)
    decreases |cbs|
  {
    if cbs != [] && p.next < |p.timers| {
      AddOne(p.timers, added);
      AddsOnlyPatient(Serve(p, now, cbs[0]), now, cbs[1..], added);
    }
  }

  ghost predicate SomeDue(p: Progress, now: Timespec) {
    exists k :: p.next <= k < |p.timers| && Due(p.timers[k], now)
  }

  /** If what the callbacks add is due at once, a pass with a due timer goes on for as long as one likes. */
  lemma {:induction false} PassGoesOn(p: Progress, now: Timespec, added: Timer, n: nat)
    returns (cbs: seq<seq<Act>>, q: Progress)
    requires SomeDue(p, now) && Due(added, now)
    ensures |cbs| == n && AddsOnly(cbs, added) && Run(p, now, cbs, q)
    decreases n
  {
    if n == 0 {
      cbs, q := [], p;
    } else {
      var acts := if Due(p.timers[p.next], now) then [Add(added)] else [];
      AddOne(p.timers, added);
      var r := Serve(p, now, acts);
      if Due(p.timers[p.next], now) {
        assert r.timers[|p.timers|] == added;
      } else {
        var k :| p.next <= k < |p.timers| && Due(p.timers[k], now);
        assert r.next <= k < |r.timers| && Due(r.timers[k], now);
      }
      var rest;
      rest, q := PassGoesOn(r, now, added, n - 1);
      cbs := [acts] + rest;
      assert cbs[1..] == rest;
    }
  }

  ghost predicate Bounded(p: Progress, now: Timespec, added: Timer, bound: int) {
    forall cbs, q :: AddsOnly(cbs, added) && Run(p, now, cbs, q) ==> |cbs| <= bound
  }

  /** Where callbacks may add timers of one kind, a pass that fires something is sure to end exactly if that
      kind is not due at once, which means: unless it has no delay and the clock has not moved. */
  lemma PassEndsIff(p: Progress, now: Timespec, added: Timer)
    requires p.next <= |p.timers| && SomeDue(p, now) && Alive(added)
    requires Normal(now) && Normal(added.start) && Nanos(added.start) >= Nanos(now) && added.expiration >= 0
    ensures (exists bound :: Bounded(p, now, added, bound)) <==> !(added.expiration == 0 && added.start == now)
  {
    StartedIsDueIff(added, now);
    if TimedOut(added, now) {
      forall bound ensures !Bounded(p, now, added, bound) {
        var cbs, q := PassGoesOn(p, now, added, if bound < 0 then 0 else bound + 1);
      }
    } else {
      forall cbs, q | AddsOnly(cbs, added) && Run(p, now, cbs, q) ensures |cbs| <= Ahead(p, now, 1) {
        AddsOnlyPatient(p, now, cbs, added);
        PatientPassEnds(p, now, cbs, q, 1);
      }
      assert Bounded(p, now, added, Ahead(p, now, 1));
    }
  }
}
