/** The list module of the timer service: fev/fev_tmsvc_sl_mod.c, fev/fev_tmsvc_modules.c and the node
    operations of fev/fev_timer_service.c.

    A pass moves every timer from one list to the other and swaps the lists.  A re-armed timer adds its
    interval to the seconds and to the nanoseconds of its start without ever carrying.
 */
module Timers {
  import opened Options

  const NS_PER_SECOND: int := 1_000_000_000
  const NS_PER_MS: int := 1_000_000
  const MS_PER_SECOND: int := 1000

  datatype Timespec = Timespec(sec: int, nsec: int)

  datatype Timer = Timer(
    start: Timespec, interval: int, expiration: int, valid: bool, hasCallback: bool, triggered: bool)

  /** A point in time, in nanoseconds. */
  function Nanos(ts: Timespec): int { ts.sec * NS_PER_SECOND + ts.nsec }

  /** When a timer is due, in nanoseconds. */
  function Deadline(t: Timer): int { Nanos(t.start) + t.expiration * NS_PER_MS }

  /** What the clock returns. */
  predicate Normal(ts: Timespec) { 0 <= ts.nsec < NS_PER_SECOND }

  /** What the service keeps: the nanoseconds of the start only grow. */
  predicate WellFormed(t: Timer) { t.start.nsec >= 0 && t.interval >= 0 && t.expiration >= 0 }

  /** Division as in C, toward zero. */
  function Quotient(a: int, b: int): (q: int)
    requires b > 0
    ensures a >= 0 ==> q * b <= a < q * b + b
    ensures a <= 0 ==> q * b - b < a <= q * b
  {
    if a >= 0 then a / b else -((-a) / b)
  }

  /** fev_tmmod_timeout. */
  predicate TimedOut(t: Timer, now: Timespec) {
    var sec := now.sec - t.start.sec;
    var nsec := now.nsec - t.start.nsec;
    if sec < 0 then false
    else if sec == 0 && nsec < 0 then false
    else sec * MS_PER_SECOND + Quotient(nsec, NS_PER_MS) >= t.expiration
  }

  /** The re-arming of a timer that has just fired. */
  function Rearmed(t: Timer): Timer {
    if t.interval > 0 then
      t.(triggered := true, expiration := t.interval,
         start := Timespec(t.start.sec + Quotient(t.interval, MS_PER_SECOND),
                           t.start.nsec + t.interval * NS_PER_MS % NS_PER_SECOND))
    else t.(triggered := true)
  }

  predicate Alive(t: Timer) { t.valid && t.hasCallback }

  /** The timer after a pass; None when the pass destroys it. */
  function After(t: Timer, now: Timespec): Option<Timer> {
    if !Alive(t) then None
    else if !TimedOut(t, now) then Some(t)
    else if t.interval > 0 then Some(Rearmed(t))
    else None
  }

  // ------------------------------------------------------------------ when a timer fires

  /** A timer fires exactly when it is due, or, when the nanoseconds of the clock are behind those of its
      start, exactly when it is due within less than a millisecond. */
  lemma TimeoutExactly(t: Timer, now: Timespec)
    requires WellFormed(t) && Normal(now)
    ensures TimedOut(t, now) <==>
              if now.nsec >= t.start.nsec then Nanos(now) >= Deadline(t)
              else now.sec > t.start.sec && Nanos(now) > Deadline(t) - NS_PER_MS
  {
    var sec, nsec := now.sec - t.start.sec, now.nsec - t.start.nsec;
    var q := Quotient(nsec, NS_PER_MS);
    assert Nanos(now) - Deadline(t) == (sec * MS_PER_SECOND - t.expiration) * NS_PER_MS + nsec;
  }

  /** Never late, and early by less than a millisecond. */
  lemma TimeoutBounds(t: Timer, now: Timespec)
    requires WellFormed(t) && Normal(now)
    ensures Nanos(now) >= Deadline(t) ==> TimedOut(t, now)
    ensures TimedOut(t, now) ==> Nanos(now) > Deadline(t) - NS_PER_MS
  {
    TimeoutExactly(t, now);
  }

  /** fev/fev_tmsvc_modules.h promises a timeout when the deadline has come, and only then.  That is what the
      code does unless it looks during the last millisecond, with the clock's nanoseconds behind the start's. */
  lemma AsDocumentedIff(t: Timer, now: Timespec)
    requires WellFormed(t) && Normal(now)
    ensures (TimedOut(t, now) <==> Nanos(now) >= Deadline(t)) <==>
              !(now.sec > t.start.sec && now.nsec < t.start.nsec && -NS_PER_MS < Nanos(now) - Deadline(t) < 0)
  {
    TimeoutExactly(t, now);
  }

  /** One nanosecond early. */
  lemma FiresEarly(t: Timer, now: Timespec)
    requires t == Timer(Timespec(5, 1), 0, 1000, true, true, false) && now == Timespec(6, 0)
    ensures TimedOut(t, now) && Nanos(now) == Deadline(t) - 1
  {
    assert Quotient(-1, NS_PER_MS) == 0;
  }

  // ------------------------------------------------------------------ no drift

  lemma RearmedMoves(t: Timer)
    requires WellFormed(t) && t.interval > 0
    ensures WellFormed(Rearmed(t)) && Rearmed(t).expiration == t.interval
    ensures Nanos(Rearmed(t).start) == Nanos(t.start) + t.interval * NS_PER_MS
  {
    var s := t.interval / MS_PER_SECOND;
    var ms := t.interval % MS_PER_SECOND;
    assert t.interval * NS_PER_MS == s * NS_PER_SECOND + ms * NS_PER_MS;
    assert t.interval * NS_PER_MS % NS_PER_SECOND == ms * NS_PER_MS;
  }

  /** A timer after passes at the given times. */
  function Passes(t: Timer, nows: seq<Timespec>): Option<Timer>
    decreases |nows|
  {
    if nows == [] then Some(t)
    else
      var before := Passes(t, nows[..|nows| - 1]);
      if before.None? then None else After(before.value, nows[|nows| - 1])
  }

  /** How often it fires in these passes. */
  function Firings(t: Timer, nows: seq<Timespec>): nat
    decreases |nows|
  {
    if nows == [] then 0
    else
      var front := nows[..|nows| - 1];
      var before := Passes(t, front);
      Firings(t, front)
      + (if before.Some? && Alive(before.value) && TimedOut(before.value, nows[|nows| - 1]) then 1 else 0)
  }

  /** Timers do not drift: after k firings the start has moved by exactly k intervals, whenever the passes were.
      From the first firing on the deadline lies k + 1 intervals after the first start. */
  lemma {:induction false} NoDrift(t: Timer, nows: seq<Timespec>)
    requires WellFormed(t) && Alive(t) && t.interval > 0
    ensures var r, k := Passes(t, nows), Firings(t, nows);
      && r.Some? && Alive(r.value) && WellFormed(r.value) && r.value.interval == t.interval
      && Nanos(r.value.start) == Nanos(t.start) + k * (t.interval * NS_PER_MS)
      && (k == 0 ==> r.value == t)
      && (k > 0 ==> r.value.triggered && Deadline(r.value) == Nanos(t.start) + (k + 1) * (t.interval * NS_PER_MS))
    decreases |nows|
  {
    if nows != [] {
      var front := nows[..|nows| - 1];
      NoDrift(t, front);
      var r, k := Passes(t, front).value, Firings(t, front);
      if TimedOut(r, nows[|nows| - 1]) {
        RearmedMoves(r);
        Distribute(k, t.interval * NS_PER_MS);
      }
    }
  }

  lemma Distribute(k: nat, i: int)
    ensures (k + 1) * i == k * i + i && (k + 2) * i == k * i + 2 * i
  {
  }

  /** The first firing forgets the initial delay: the next deadline lies twice the interval after the start, so
      a full interval after the first one exactly when the delay was the interval. */
  lemma FirstPeriod(t: Timer)
    requires WellFormed(t) && t.interval > 0
    ensures Deadline(Rearmed(t)) - Deadline(t) == (2 * t.interval - t.expiration) * NS_PER_MS
    ensures Deadline(Rearmed(t)) - Deadline(t) == t.interval * NS_PER_MS <==> t.expiration == t.interval
  {
    RearmedMoves(t);
  }

  /** A firing after the first is the k-th only if k intervals have gone by since the start, less than a
      millisecond excepted; and a pass that does not fire comes before the next deadline. */
  lemma NeverAhead(t: Timer, nows: seq<Timespec>, now: Timespec)
    requires WellFormed(t) && Alive(t) && t.interval > 0 && Normal(now) && Firings(t, nows) > 0
    ensures var k := Firings(t, nows);
      if Firings(t, nows + [now]) == k + 1
      then Nanos(now) - Nanos(t.start) > (k + 1) * (t.interval * NS_PER_MS) - NS_PER_MS
      else Firings(t, nows + [now]) == k && Nanos(now) - Nanos(t.start) < (k + 1) * (t.interval * NS_PER_MS)
  {
    NoDrift(t, nows);
    assert (nows + [now])[..|nows|] == nows;
    TimeoutBounds(Passes(t, nows).value, now);
  }

  /** Some of the passes find the timer timed out. */
  predicate TimesOut(t: Timer, nows: seq<Timespec>) {
    exists i :: 0 <= i < |nows| && TimedOut(t, nows[i])
  }

  /** A timer without an interval fires once, in the first pass that finds it due; until then no pass changes
      it, and after that it is gone. */
  lemma {:induction false} OneShot(t: Timer, nows: seq<Timespec>)
    requires t.valid && t.hasCallback && t.interval <= 0
    ensures if TimesOut(t, nows) then Passes(t, nows) == None && Firings(t, nows) == 1
            else Passes(t, nows) == Some(t) && Firings(t, nows) == 0
    decreases |nows|
  {
    if nows != [] {
      var front := nows[..|nows| - 1];
      OneShot(t, front);
      TimesOutLast(t, nows);
    }
  }

  lemma TimesOutLast(t: Timer, nows: seq<Timespec>)
    requires nows != []
    ensures TimesOut(t, nows) <==> TimesOut(t, nows[..|nows| - 1]) || TimedOut(t, nows[|nows| - 1])
  {
    var front := nows[..|nows| - 1];
    forall i | 0 <= i < |front| ensures front[i] == nows[i] {
    }
  }

  /** A timer that is deleted, or has no callback, never fires and does not outlive the first pass. */
  lemma {:induction false} DeadIsDropped(t: Timer, nows: seq<Timespec>)
    requires !(t.valid && t.hasCallback) && nows != []
    ensures Passes(t, nows) == None && Firings(t, nows) == 0
    decreases |nows|
  {
    if |nows| > 1 {
      DeadIsDropped(t, nows[..|nows| - 1]);
    } else {
      assert nows[..0] == [];
    }
  }

  /** Nothing is carried: every firing adds whole seconds to the seconds and the rest to the nanoseconds. */
  lemma {:induction false} NothingCarried(t: Timer, nows: seq<Timespec>)
    requires WellFormed(t) && Alive(t) && t.interval > 0
    ensures Passes(t, nows).Some?
    ensures var s, k := Passes(t, nows).value.start, Firings(t, nows);
      && s.sec == t.start.sec + k * (t.interval / MS_PER_SECOND)
      && s.nsec == t.start.nsec + k * (t.interval % MS_PER_SECOND * NS_PER_MS)
    decreases |nows|
  {
    NoDrift(t, nows);
    if nows != [] {
      var front := nows[..|nows| - 1];
      NothingCarried(t, front);
      NoDrift(t, front);
      var r, k := Passes(t, front).value, Firings(t, front);
      if TimedOut(r, nows[|nows| - 1]) {
        RearmedParts(r);
        Distribute(k, t.interval / MS_PER_SECOND);
        Distribute(k, t.interval % MS_PER_SECOND * NS_PER_MS);
      }
    }
  }

  lemma RearmedParts(t: Timer)
    requires WellFormed(t) && t.interval > 0
    ensures Rearmed(t).start.sec == t.start.sec + t.interval / MS_PER_SECOND
    ensures Rearmed(t).start.nsec == t.start.nsec + t.interval % MS_PER_SECOND * NS_PER_MS
  {
    var s, ms := t.interval / MS_PER_SECOND, t.interval % MS_PER_SECOND;
    assert t.interval * NS_PER_MS == s * NS_PER_SECOND + ms * NS_PER_MS;
  }

  /** So an interval that is no number of seconds lifts the nanoseconds above any the clock shows: after enough
      firings the timer is due in every period from just under a millisecond before its deadline on. */
  lemma EarlyForGood(t: Timer, nows: seq<Timespec>, now: Timespec)
    requires WellFormed(t) && Alive(t) && t.interval > 0 && Normal(now)
    requires Firings(t, nows) * (t.interval % MS_PER_SECOND) >= MS_PER_SECOND
    ensures Passes(t, nows).Some?
    ensures var r := Passes(t, nows).value; TimedOut(r, now) <==> Nanos(now) > Deadline(r) - NS_PER_MS
  {
    NoDrift(t, nows);
    NothingCarried(t, nows);
    var r, k := Passes(t, nows).value, Firings(t, nows);
    Regroup(k, t.interval % MS_PER_SECOND);
    assert r.start.nsec >= NS_PER_SECOND;
    Distribute(k, t.interval * NS_PER_MS);
    assert r.expiration == t.interval;
    TimeoutExactly(r, now);
  }

  lemma Regroup(k: nat, ms: nat)
    ensures k * (ms * NS_PER_MS) == k * ms * NS_PER_MS
    ensures k * ms >= MS_PER_SECOND ==> k > 0
  {
  }

  // ------------------------------------------------------------------ a pass over the list

  /** The timers a pass keeps, in order. */
  function Pass(ts: seq<Timer>, now: Timespec): seq<Timer> {
    if ts == [] then []
    else
      var last := After(ts[|ts| - 1], now);
      Pass(ts[..|ts| - 1], now) + (if last.Some? then [last.value] else [])
  }

  /** Their places before the pass. */
  function Kept(ts: seq<Timer>, now: Timespec): seq<nat> {
    if ts == [] then []
    else Kept(ts[..|ts| - 1], now) + (if After(ts[|ts| - 1], now).Some? then [|ts| - 1] else [])
  }

  /** How many timers the pass fires. */
  function Expired(ts: seq<Timer>, now: Timespec): nat {
    if ts == [] then 0
    else
      var last := ts[|ts| - 1];
      Expired(ts[..|ts| - 1], now) + (if Alive(last) && TimedOut(last, now) then 1 else 0)
  }

  /** A pass keeps the order: what it keeps are exactly the timers it does not destroy, in ascending places. */
  lemma {:induction false} KeptInOrder(ts: seq<Timer>, now: Timespec)
    ensures |Pass(ts, now)| == |Kept(ts, now)|
    ensures forall m, n :: 0 <= m < n < |Kept(ts, now)| ==> Kept(ts, now)[m] < Kept(ts, now)[n]
    ensures forall m :: 0 <= m < |Kept(ts, now)| ==>
              Kept(ts, now)[m] < |ts| && After(ts[Kept(ts, now)[m]], now) == Some(Pass(ts, now)[m])
    ensures forall i :: 0 <= i < |ts| && After(ts[i], now).Some? ==> i in Kept(ts, now)
  {
    if ts != [] {
      KeptInOrder(ts[..|ts| - 1], now);
    }
  }

  lemma {:induction false} PassConcat(a: seq<Timer>, b: seq<Timer>, now: Timespec)
    ensures Pass(a + b, now) == Pass(a, now) + Pass(b, now)
    decreases |b|
  {
    if b == [] {
      assert a + b == a;
    } else {
      PassConcat(a, b[..|b| - 1], now);
      assert (a + b)[..|a + b| - 1] == a + b[..|b| - 1];
    }
  }

  /** The list after passes at the given times. */
  function PassAll(ts: seq<Timer>, nows: seq<Timespec>): seq<Timer>
    decreases |nows|
  {
    if nows == [] then ts else Pass(PassAll(ts, nows[..|nows| - 1]), nows[|nows| - 1])
  }

  /** Timers do not influence each other. */
  lemma {:induction false} Independent(a: seq<Timer>, t: Timer, b: seq<Timer>, nows: seq<Timespec>)
    ensures PassAll(a + [t] + b, nows)
         == PassAll(a, nows) + (if Passes(t, nows).Some? then [Passes(t, nows).value] else []) + PassAll(b, nows)
    decreases |nows|
  {
    if nows != [] {
      var front, now := nows[..|nows| - 1], nows[|nows| - 1];
      Independent(a, t, b, front);
      var mid := if Passes(t, front).Some? then [Passes(t, front).value] else [];
      PassConcat(PassAll(a, front) + mid, PassAll(b, front), now);
      PassConcat(PassAll(a, front), mid, now);
      PassOne(mid, now);
    }
  }

  lemma PassOne(one: seq<Timer>, now: Timespec)
    requires |one| <= 1
    ensures Pass(one, now) == if one != [] && After(one[0], now).Some? then [After(one[0], now).value] else []
  {
    if one != [] {
      assert one[..0] == [];
    }
  }

  lemma {:induction false} ExpiredConcat(a: seq<Timer>, b: seq<Timer>, now: Timespec)
    ensures Expired(a + b, now) == Expired(a, now) + Expired(b, now)
    decreases |b|
  {
    if b == [] {
      assert a + b == a;
    } else {
      ExpiredConcat(a, b[..|b| - 1], now);
      assert (a + b)[..|a + b| - 1] == a + b[..|b| - 1];
    }
  }

  /** How many callbacks the passes call in all. */
  function ExpiredAll(ts: seq<Timer>, nows: seq<Timespec>): nat
    decreases |nows|
  {
    if nows == [] then 0
    else
      var front := nows[..|nows| - 1];
      ExpiredAll(ts, front) + Expired(PassAll(ts, front), nows[|nows| - 1])
  }

  /** The callbacks called are those of the single timers: none is called for another's sake, none is left out. */
  lemma {:induction false} FiringsAddUp(a: seq<Timer>, t: Timer, b: seq<Timer>, nows: seq<Timespec>)
    ensures ExpiredAll(a + [t] + b, nows) == ExpiredAll(a, nows) + Firings(t, nows) + ExpiredAll(b, nows)
    decreases |nows|
  {
    if nows != [] {
      var front, now := nows[..|nows| - 1], nows[|nows| - 1];
      FiringsAddUp(a, t, b, front);
      Independent(a, t, b, front);
      var mid := if Passes(t, front).Some? then [Passes(t, front).value] else [];
      ExpiredConcat(PassAll(a, front) + mid, PassAll(b, front), now);
      ExpiredConcat(PassAll(a, front), mid, now);
      assert mid != [] ==> mid[..0] == [];
    }
  }

  lemma DeletedInOnePass(a: seq<Timer>, t: Timer, b: seq<Timer>, now: Timespec)
    requires !t.valid
    ensures Pass(a + [t] + b, now) == Pass(a + b, now) && Expired(a + [t] + b, now) == Expired(a + b, now)
  {
    PassConcat(a + [t], b, now);
    PassConcat(a, [t], now);
    PassConcat(a, b, now);
    PassOne([t], now);
    ExpiredConcat(a + [t], b, now);
    ExpiredConcat(a, [t], now);
    ExpiredConcat(a, b, now);
    assert [t][..0] == [];
  }

  /** Over any passes after it was deleted a timer is as if it had never been: it never fires, the first pass
      destroys it, and no other timer is served differently. */
  lemma {:induction false} DeletedNeverFires(a: seq<Timer>, t: Timer, b: seq<Timer>, nows: seq<Timespec>)
    requires !t.valid && nows != []
    ensures PassAll(a + [t] + b, nows) == PassAll(a + b, nows)
    ensures ExpiredAll(a + [t] + b, nows) == ExpiredAll(a + b, nows)
    decreases |nows|
  {
    var front := nows[..|nows| - 1];
    if front == [] {
      DeletedInOnePass(a, t, b, nows[0]);
    } else {
      DeletedNeverFires(a, t, b, front);
    }
  }

  // ------------------------------------------------------------------ the code

  class TimerNode {
    var start: Timespec
    var interval: int
    var expiration: int
    var valid: bool
    var triggered: bool
    const hasCallback: bool

    ghost function View(): Timer
      reads this
    {
      Timer(start, interval, expiration, valid, hasCallback, triggered)
    }

    constructor (start: Timespec, delay: int, interval: int)
      ensures View() == Timer(start, interval, delay, true, true, false)
    {
      this.start, this.interval, this.expiration := start, interval, delay;
      valid, triggered, hasCallback := true, false, true;
    }

    /** fev_tmmod_timeout. */
    method Timeout(now: Timespec) returns (timeout: bool)
      ensures timeout == TimedOut(View(), now)
    {
      var sec := now.sec - start.sec;
      var nsec := now.nsec - start.nsec;
      if sec < 0 {
        return false;
      }
      if sec == 0 && nsec < 0 {
        return false;
      }
      var ms := sec * MS_PER_SECOND + Quotient(nsec, NS_PER_MS);
      return ms >= expiration;
    }

    /** What firing leaves in the node. */
    method Rearm()
      modifies this
      ensures View() == Rearmed(old(View()))
    {
      if interval > 0 {
        expiration := interval;
        start := Timespec(start.sec + Quotient(expiration, MS_PER_SECOND),
                          start.nsec + expiration * NS_PER_MS % NS_PER_SECOND);
      }
      triggered := true;
    }

    /** fev_tmsvc_timer_del. */
    method Delete()
      modifies this`valid
      ensures View() == old(View()).(valid := false)
    {
      valid := false;
    }

    /** fev_tmsvc_timer_resetn: a new start and, unless it is negative, a new expiration. */
    method Resetn(now: Timespec, newExpiration: int) returns (failed: bool)
      modifies this
      ensures failed == (newExpiration < 0)
      ensures View() == if failed then old(View()) else old(View()).(start := now, expiration := newExpiration)
      ensures !failed ==> Deadline(View()) == Nanos(now) + newExpiration * NS_PER_MS
    {
      if newExpiration < 0 {
        return true;
      }
      start := now;
      expiration := newExpiration;
      return false;
    }
  }

  ghost function Views(ns: seq<TimerNode>): (r: seq<Timer>)
    reads ns
    ensures |r| == |ns|
  {
    seq(|ns|, i requires 0 <= i < |ns| reads ns => ns[i].View())
  }

  class TimerList {
    var timerList: seq<TimerNode>
    var backupList: seq<TimerNode>

    ghost predicate Valid()
      reads this
    {
      && backupList == []
      && forall i, j :: 0 <= i < j < |timerList| ==> timerList[i] != timerList[j]
    }

    constructor ()
      ensures Valid() && timerList == []
    {
      timerList, backupList := [], [];
    }

    /** fev_tmsvc_timer_add: negative times and a missing callback are refused. */
    method Add(now: Timespec, delay: int, interval: int, hasCallback: bool) returns (node: TimerNode?)
      requires Valid() && Normal(now)
      modifies this`timerList
      ensures Valid() && (node == null <==> delay < 0 || interval < 0 || !hasCallback)
      ensures node == null ==> timerList == old(timerList)
      ensures node != null ==>
                && fresh(node) && timerList == old(timerList) + [node]
                && node.View() == Timer(now, interval, delay, true, true, false) && WellFormed(node.View())
    {
      if delay < 0 || interval < 0 || !hasCallback {
        return null;
      }
      node := new TimerNode(now, delay, interval);
      timerList := timerList + [node];
    }

    /** _process: one pass.  The callbacks are taken to leave the lists alone. */
    method Process(now: Timespec) returns (expired: nat)
      requires Valid()
      modifies this, timerList
      ensures Valid()
      ensures var was := old(Views(timerList));
        && Views(timerList) == Pass(was, now) && expired == Expired(was, now)
        && |timerList| == |Kept(was, now)|
        && forall m :: 0 <= m < |timerList| ==>
             Kept(was, now)[m] < |was| && timerList[m] == old(timerList)[Kept(was, now)[m]]
    {
      hide Pass, Kept, Expired;
      ghost var nodes, was := timerList, Views(timerList);
      Start(nodes, was, now);
      ghost var done := 0;
      expired := 0;
      while timerList != []
        invariant done <= |nodes| && timerList == nodes[done..]
        invariant forall i :: done <= i < |nodes| ==> nodes[i].View() == was[i]
        invariant expired == Expired(was[..done], now)
        invariant Moved(nodes, was[..done], now)
        decreases |timerList|
      {
        var node := timerList[0];
        timerList := timerList[1..];
        expired := Handle(node, now, expired, nodes, was, done);
        done := done + 1;
      }
      assert was[..done] == was;
      KeptInOrder(was, now);
      timerList, backupList := backupList, timerList;
    }

    /** The backup list holds the nodes kept so far, each as the pass leaves it. */
    ghost predicate Moved(nodes: seq<TimerNode>, seen: seq<Timer>, now: Timespec)
      reads this, backupList
    {
      && |seen| <= |nodes|
      && Views(backupList) == Pass(seen, now)
      && |backupList| == |Kept(seen, now)|
      && forall m :: 0 <= m < |backupList| ==> Kept(seen, now)[m] < |seen| && backupList[m] == nodes[Kept(seen, now)[m]]
    }

    /** Nothing seen, nothing kept. */
    lemma Start(nodes: seq<TimerNode>, was: seq<Timer>, now: Timespec)
      requires backupList == []
      ensures Moved(nodes, was[..0], now) && Expired(was[..0], now) == 0
    {
    }

    /** Append a node to the backup list. */
    method Keep(node: TimerNode, now: Timespec, ghost nodes: seq<TimerNode>, ghost was: seq<Timer>, ghost done: nat)
      requires done < |nodes| == |was| && node == nodes[done]
      requires Moved(nodes, was[..done], now) && After(was[done], now) == Some(node.View())
      modifies this`backupList
      ensures Moved(nodes, was[..done + 1], now)
    {
      hide After;
      assert was[..done + 1][..done] == was[..done];
      backupList := backupList + [node];
    }

    /** What a pass does with one node. */
    method Handle(node: TimerNode, now: Timespec, expired: nat,
                  ghost nodes: seq<TimerNode>, ghost was: seq<Timer>, ghost done: nat) returns (expired': nat)
      requires done < |nodes| == |was| && node == nodes[done] && node.View() == was[done]
      requires forall i, j :: 0 <= i < j < |nodes| ==> nodes[i] != nodes[j]
      requires Moved(nodes, was[..done], now)
      requires expired == Expired(was[..done], now)
      modifies this`backupList, node
      ensures Moved(nodes, was[..done + 1], now)
      ensures expired' == Expired(was[..done + 1], now)
    {
      hide TimedOut, Quotient;
      assert was[..done + 1][..done] == was[..done];
      expired' := expired;
      if !node.valid || !node.hasCallback {
        return;
      }
      var timeout := node.Timeout(now);
      if timeout {
        Fire(node, now, nodes, was, done);
        expired' := expired' + 1;
      }
      if node.interval > 0 || !timeout {
        Keep(node, now, nodes, was, done);
      }
    }

    /** Re-arm the node at hand: the nodes kept so far are others. */
    method Fire(node: TimerNode, now: Timespec, ghost nodes: seq<TimerNode>, ghost was: seq<Timer>, ghost done: nat)
      requires done < |nodes| == |was| && node == nodes[done]
      requires forall i, j :: 0 <= i < j < |nodes| ==> nodes[i] != nodes[j]
      requires Moved(nodes, was[..done], now)
      modifies node
      ensures node.View() == Rearmed(old(node.View())) && Moved(nodes, was[..done], now)
    {
      hide Pass, Kept;
      ghost var kept, views := backupList, Views(backupList);
      assert forall m :: 0 <= m < |kept| ==> kept[m] != node && kept[m].View() == views[m];
      node.Rearm();
      assert Views(backupList) == views;
    }

    /** The valid timer due first, in whole milliseconds; the earlier in the list among equals. */
    method Top() returns (top: TimerNode?)
      ensures top == null <==> forall i :: 0 <= i < |timerList| ==> !timerList[i].valid
      ensures top != null ==> exists i :: IsTop(timerList, i) && top == timerList[i]
    {
      top := null;
      ghost var at := 0;
      for k := 0 to |timerList|
        invariant top == null ==> forall i :: 0 <= i < k ==> !timerList[i].valid
        invariant top != null ==> at < k && top == timerList[at] && IsTop(timerList[..k], at)
      {
        var node := timerList[k];
        if node.valid && (top == null || Millis(node) < Millis(top)) {
          top, at := node, k;
        }
      }
      assert timerList[..|timerList|] == timerList;
    }
  }

  /** When a node is due, in the milliseconds _top compares. */
  function Millis(node: TimerNode): int
    reads node
  {
    node.start.sec * MS_PER_SECOND + Quotient(node.start.nsec, NS_PER_MS) + node.expiration
  }

  ghost predicate IsTop(ns: seq<TimerNode>, i: int)
    reads ns
  {
    && 0 <= i < |ns| && ns[i].valid
    && (forall j :: 0 <= j < |ns| && ns[j].valid ==> Millis(ns[i]) <= Millis(ns[j]))
    && (forall j :: 0 <= j < i && ns[j].valid ==> Millis(ns[i]) < Millis(ns[j]))
  }

  /** The milliseconds are the deadline, rounded down. */
  lemma MillisOfDeadline(node: TimerNode)
    requires node.start.nsec >= 0
    ensures Millis(node) * NS_PER_MS <= Deadline(node.View()) < Millis(node) * NS_PER_MS + NS_PER_MS
  {
    assert node.start.sec * NS_PER_SECOND == node.start.sec * MS_PER_SECOND * NS_PER_MS;
  }
}
