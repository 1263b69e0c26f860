/** The fetcher thread of flog/flog.c: the loops that drain the rings.

    The methods run between producer steps; each reports the fetcher steps it took, and what it promises
    about them holds when no producer runs in between (the shutdown situation of the fetcher's last loop).
 */
module FlogFetcher {
  import opened FlogPipeline
  import opened FlogGuarantees

  const MAX_POLL: nat := 1024

  /** Nothing at the head of this ring can be handled now. */
  ghost predicate Stuck(s: State, t: ThreadId) {
    t in s.threads && s.threads[t].registered ==> !Eligible(s, t) && !QuitAtHead(s, t)
  }

  ghost predicate Quiet(s: State) {
    forall t :: t in s.threads ==> s.threads[t].pc.Idle? || s.threads[t].pc.Gone?
  }

  ghost function Notified(s: State): set<ThreadId> {
    set t | t in s.threads && s.threads[t].notified
  }

  /** Everything taken is written, and the only records left belong to threads that are still alive or
      whose QUIT frame was refused by a full ring. */
  ghost predicate Drained(s: State) {
    && (forall f :: f in s.lastAid ==> f in s.written && s.written[f] == FileBodies(s.taken, f))
    && (forall t :: t in s.threads ==> s.threads[t].ring == [] && s.threads[t].pc != Gone(true))
  }

  /** What handling ring `t` may touch. */
  ghost predicate OnlyRing(s: State, s': State, t: ThreadId) {
    && s'.taken == s.taken && s'.lastAid == s.lastAid
    && (forall u :: u != t ==> (u in s'.threads <==> u in s.threads))
    && (forall u :: u != t && u in s.threads ==> s'.threads[u] == s.threads[u])
    && (t in s'.threads ==> t in s.threads && s'.threads[t] == s.threads[t].(ring := s'.threads[t].ring))
  }

  /** Handling ring `t` without writing anything changes nothing but a possible release of `t`. */
  ghost predicate OnlyRelease(s: State, s': State, t: ThreadId) {
    s' == s || s' == s.(threads := s.threads - {t})
  }

  /** What the fetcher may do to the state: it takes no ids and never touches the producers' side. */
  ghost predicate FetcherSide(s: State, s': State) {
    && s'.taken == s.taken && s'.lastAid == s.lastAid && s'.broken == s.broken
    && (forall u :: u in s'.threads ==> u in s.threads && s'.threads[u].pc == s.threads[u].pc)
    && (forall u :: u in s'.threads && s'.threads[u].notified ==> s.threads[u].notified)
    && (forall u :: u in s'.threads ==> KeepsKnown(s.threads[u], s'.threads[u]))
  }

  /** The fetcher forgets no ring and fills none. */
  ghost predicate KeepsKnown(th: Thread, th': Thread) {
    && (th.registered ==> th'.registered)
    && (th.notified ==> th'.notified || th'.registered)
    && (th.ring == [] ==> th'.ring == [])
  }

  /** No id is in a producer's hand, and the fetcher knows of every ring that holds something, or will. */
  ghost predicate Announced(s: State) {
    forall t :: t in s.threads ==>
      && !s.threads[t].pc.Holding?
      && (s.threads[t].ring != [] ==> s.threads[t].registered || s.threads[t].notified)
  }

  /** Some sequence of steps of the protocol leads from `s` to `s'`. */
  ghost predicate Reaches(s: State, s': State) {
    exists es :: Run(s, es, s')
  }

  /** A state some interleaving of the whole system leads to. */
  ghost predicate Reachable(s: State) {
    Reaches(Init, s)
  }

  /** ... with nothing misread so far and no thread between two writes of its tail.  As long as only the
      fetcher runs this lasts. */
  ghost predicate Calm(s: State) {
    Reachable(s) && !s.broken && forall t :: t in s.threads ==> !s.threads[t].pc.Settling?
  }

  lemma CalmInv(s: State)
    requires Calm(s)
    ensures Inv(s)
  {
    var es :| Run(Init, es, s);
    InitInv();
    RunInv(Init, es, s);
  }

  /** The fetcher went from `s` to `s'` by steps of the protocol, and nothing written became unwritten. */
  ghost predicate Pass(s: State, s': State) {
    Reaches(s, s') && FetcherSide(s, s') && Unwritten(s') <= Unwritten(s)
  }

  lemma PassNone(s: State)
    ensures Pass(s, s)
  {
    ReachesNone(s);
  }

  lemma ReachesNone(s: State)
    ensures Reaches(s, s)
  {
    assert Run(s, [], s);
  }

  lemma ReachesOne(s: State, e: Event)
    requires Enabled(s, e)
    ensures Reaches(s, Apply(s, e))
  {
    assert [e][1..] == [];
    assert Run(Apply(s, e), [], Apply(s, e));
    assert Run(s, [e], Apply(s, e));
  }

  lemma ReachesTrans(s: State, m: State, s': State)
    requires Reaches(s, m) && Reaches(m, s')
    ensures Reaches(s, s')
  {
    var es, es' :| Run(s, es, m) && Run(m, es', s');
    RunConcat(s, es, m, es', s');
  }

  lemma PassTrans(s: State, m: State, s': State)
    requires Pass(s, m) && Pass(m, s')
    ensures Pass(s, s') && (Calm(s) ==> Calm(s'))
  {
    ReachesTrans(s, m, s');
    if Calm(s) { ReachesTrans(Init, s, s'); }
  }

  /** A fetch writes exactly one increment. */
  lemma FetchCounts(s: State, t: ThreadId)
    requires FilesInv(s) && RingInv(s, t) && Enabled(s, Fetch(t))
    ensures Unwritten(DoFetch(s, t)) <= Unwritten(s) && |Unwritten(DoFetch(s, t))| + 1 == |Unwritten(s)|
  {
    hide Own, Carries, ThreadShape, FileBodies, WellNumbered;
    var p := FetchWrites(s, t);
    assert p < |s.taken| && !Written(s.taken, s.currAid, p);
    hide FilesInv, RingInv, Written, WrittenPrefix;
    assert Unwritten(DoFetch(s, t)) == Unwritten(s) - {p} && p in Unwritten(s);
  }

  lemma FetchSide(s: State, t: ThreadId)
    requires Enabled(s, Fetch(t))
    ensures FetcherSide(s, DoFetch(s, t))
  {
  }

  lemma PassFetch(s: State, t: ThreadId)
    requires Calm(s) && Enabled(s, Fetch(t))
    ensures Pass(s, DoFetch(s, t)) && |Unwritten(DoFetch(s, t))| + 1 == |Unwritten(s)|
  {
    hide RingInv, FilesInv, Unwritten, FetcherSide;
    CalmInv(s);
    assert RingInv(s, t);
    FetchCounts(s, t);
    FetchSide(s, t);
    ReachesOne(s, Fetch(t));
  }

  lemma PassRelease(s: State, t: ThreadId)
    requires Calm(s) && Enabled(s, Release(t))
    ensures Pass(s, DoRelease(s, t)) && Unwritten(DoRelease(s, t)) == Unwritten(s)
  {
    ReachesOne(s, Release(t));
  }

  lemma PassPoll(s: State, t: ThreadId)
    requires Calm(s) && Enabled(s, Poll(t))
    ensures Pass(s, DoPoll(s, t)) && Unwritten(DoPoll(s, t)) == Unwritten(s)
    ensures Notified(DoPoll(s, t)) == Notified(s) - {t}
  {
    ReachesOne(s, Poll(t));
  }

  /** Ring `t` has been handled up to state `s`, and `n` messages were written. */
  ghost predicate Processed(s0: State, s: State, t: ThreadId, n: nat) {
    && t in s.threads && s.threads[t].registered
    && Calm(s) && Pass(s0, s) && OnlyRing(s0, s, t)
    && |Unwritten(s)| + n == |Unwritten(s0)| && (n == 0 ==> s == s0)
  }

  lemma ProcessFetch(s0: State, s: State, t: ThreadId, n: nat)
    requires Processed(s0, s, t, n) && Enabled(s, Fetch(t))
    ensures Processed(s0, DoFetch(s, t), t, n + 1)
  {
    PassFetch(s, t);
    PassTrans(s0, s, DoFetch(s, t));
    ReachesTrans(Init, s, DoFetch(s, t));
  }

  lemma ProcessRelease(s0: State, s: State, t: ThreadId, n: nat)
    requires Processed(s0, s, t, n) && Enabled(s, Release(t))
    ensures Calm(DoRelease(s, t)) && Pass(s0, DoRelease(s, t)) && OnlyRing(s0, DoRelease(s, t), t)
    ensures |Unwritten(DoRelease(s, t))| + n == |Unwritten(s0)| && (n == 0 ==> OnlyRelease(s0, DoRelease(s, t), t))
  {
    PassRelease(s, t);
    PassTrans(s0, s, DoRelease(s, t));
    ReachesTrans(Init, s, DoRelease(s, t));
  }

  /** What a round has achieved when the rings in `todo` are still to come. */
  ghost predicate Round(s0: State, s: State, todo: set<ThreadId>, n: nat) {
    && Calm(s) && Pass(s0, s)
    && (forall t :: t in todo ==> t in s.threads && s.threads[t].registered)
    && |Unwritten(s)| + n == |Unwritten(s0)| && (n == 0 ==> forall t :: t !in todo ==> Stuck(s, t))
  }

  lemma RoundNext(s0: State, s: State, todo: set<ThreadId>, n: nat, t: ThreadId, s': State, k: nat)
    requires Round(s0, s, todo, n) && t in todo
    requires Calm(s') && Pass(s, s') && OnlyRing(s, s', t) && Stuck(s', t)
    requires |Unwritten(s')| + k == |Unwritten(s)| && (k == 0 ==> OnlyRelease(s, s', t))
    ensures Round(s0, s', todo - {t}, n + k)
  {
    PassTrans(s0, s, s');
    if n == 0 && k == 0 {
      forall u | u !in todo - {t} ensures Stuck(s', u) {
        if u != t { assert Stuck(s, u); }
      }
    }
  }

  lemma HeadIsKnown(s: State, t: ThreadId)
    requires Calm(s) && t in s.threads && s.threads[t].ring != [] && s.threads[t].ring[0].Msg?
    ensures s.threads[t].ring[0].file in s.currAid && s.threads[t].ring[0].file in s.written
  {
    CalmInv(s);
    assert RingInv(s, t);
    assert Shows(s.taken, Own(s.taken, t), Base(s, t) + 0, s.threads[t].ring[0]);
  }

  class Fetcher {
    var lastAid: map<FileId, nat>
    var currAid: map<FileId, nat>
    var written: map<FileId, seq<Body>>
    var threads: map<ThreadId, Thread>
    ghost var taken: seq<Take>

    ghost function Abs(): State
      reads this
    {
      State(lastAid, currAid, written, threads, taken, false)
    }

    constructor ()
      ensures Abs() == Init
    {
      lastAid, currAid, written, threads, taken := map[], map[], map[], map[], [];
    }

    /** _log_pto_fetch_msg: returns true when the head frame has to wait for its turn. */
    method FetchMsg(t: ThreadId) returns (wait: bool)
      requires t in threads && threads[t].registered
      requires threads[t].ring != [] && threads[t].ring[0].Msg?
      requires threads[t].ring[0].file in currAid && threads[t].ring[0].file in written
      modifies this
      ensures wait == !Eligible(old(Abs()), t)
      ensures Abs() == if wait then old(Abs()) else DoFetch(old(Abs()), t)
    {
      var x := threads[t].ring[0];
      if x.aid != currAid[x.file] + 1 {
        return true;
      }
      currAid := currAid[x.file := currAid[x.file] + 1];
      written := written[x.file := written[x.file] + [x.body]];
      threads := threads[t := threads[t].(ring := threads[t].ring[1..])];
      return false;
    }

    /** _log_pto_thread_quit: drop the frame, then the whole record. */
    method ThreadQuit(t: ThreadId)
      requires QuitAtHead(Abs(), t)
      modifies this
      ensures Abs() == DoRelease(old(Abs()), t)
    {
      threads := threads - {t};
    }

    /** _log_async_process: handle frames of one ring until one has to wait, the ring is empty or gone. */
    method AsyncProcess(t: ThreadId) returns (nprocessed: nat)
      requires Calm(Abs()) && t in threads && threads[t].registered
      modifies this
      ensures Calm(Abs()) && Pass(old(Abs()), Abs()) && OnlyRing(old(Abs()), Abs(), t) && Stuck(Abs(), t)
      ensures |Unwritten(Abs())| + nprocessed == |Unwritten(old(Abs()))|
      ensures nprocessed == 0 ==> OnlyRelease(old(Abs()), Abs(), t)
    {
      nprocessed := 0;
      ghost var s0 := Abs();
      PassNone(s0);
      while true
        invariant Processed(s0, Abs(), t, nprocessed)
        decreases |threads[t].ring|
      {
        ghost var s := Abs();
        if threads[t].ring == [] {
          return;
        }
        if threads[t].ring[0].Quit? {
          ThreadQuit(t);
          ProcessRelease(s0, s, t, nprocessed);
          return;
        }
        HeadIsKnown(s, t);
        var wait := FetchMsg(t);
        if wait {
          return;
        }
        ProcessFetch(s0, s, t, nprocessed);
        nprocessed := nprocessed + 1;
      }
    }

    /** One round over all registered rings, in whatever order the iterator gives them. */
    method DrainRound() returns (processed: nat)
      requires Calm(Abs())
      modifies this
      ensures Calm(Abs()) && Pass(old(Abs()), Abs())
      ensures |Unwritten(Abs())| + processed == |Unwritten(old(Abs()))|
      ensures processed == 0 ==> forall t :: Stuck(Abs(), t)
    {
      processed := 0;
      ghost var s0 := Abs();
      PassNone(s0);
      var todo: set<ThreadId> := set t: ThreadId | t in threads && threads[t].registered;
      while todo != {}
        invariant Round(s0, Abs(), todo, processed)
        decreases |todo|
      {
        var t :| t in todo;
        ghost var s := Abs();
        var n := AsyncProcess(t);
        RoundNext(s0, s, todo, processed, t, Abs(), n);
        processed := processed + n;
        todo := todo - {t};
      }
    }

    /** The rounds go on until one of them handles nothing. */
    method DrainRounds() returns (total: nat)
      requires Calm(Abs())
      modifies this
      ensures Calm(Abs()) && Pass(old(Abs()), Abs()) && forall t :: Stuck(Abs(), t)
      ensures |Unwritten(Abs())| + total == |Unwritten(old(Abs()))|
      ensures Settled(old(Abs())) ==> Unwritten(Abs()) == {}
    {
      total := 0;
      PassNone(Abs());
      while true
        invariant Calm(Abs()) && Pass(old(Abs()), Abs())
        invariant |Unwritten(Abs())| + total == |Unwritten(old(Abs()))|
        decreases |Unwritten(Abs())|
      {
        ghost var s := Abs();
        var round := DrainRound();
        PassTrans(old(Abs()), s, Abs());
        total := total + round;
        if round == 0 {
          if Settled(old(Abs())) {
            SettledStays(old(Abs()), Abs());
            StuckMeansWritten(Abs());
          }
          return;
        }
      }
    }

    /** The event part of a pass: make each notifying thread known, clear its event, handle its ring. */
    method ServeEvents(events: set<ThreadId>)
      requires Calm(Abs()) && events <= Notified(Abs())
      modifies this
      ensures Calm(Abs()) && Pass(old(Abs()), Abs()) && Notified(Abs()) == Notified(old(Abs())) - events
      ensures forall t :: t in events && t in threads ==> threads[t].registered
      ensures Unwritten(Abs()) == Unwritten(old(Abs())) ==> forall t :: t in events ==> Stuck(Abs(), t)
    {
      ghost var s0 := Abs();
      PassNone(s0);
      var todo := events;
      while todo != {}
        invariant todo <= events && Served(s0, Abs(), events, todo)
        decreases |todo|
      {
        hide Unwritten;
        var t :| t in todo;
        ghost var s := Abs();
        ServePoll(s0, s, events, todo, t);
        threads := threads[t := threads[t].(notified := false, registered := true)];
        assert Abs() == DoPoll(s, t);
        hide Served, Calm, Pass, OnlyRing, OnlyRelease, Stuck;
        var n := AsyncProcess(t);
        ServeNext(s0, s, events, todo, t, Abs(), n);
        todo := todo - {t};
      }
    }

    /** epoll_wait: all threads with a pending event, or as many as it takes at a time. */
    method PollReady() returns (events: set<ThreadId>)
      ensures events <= Notified(Abs()) && |events| <= MAX_POLL
      ensures |events| == MAX_POLL || events == Notified(Abs())
    {
      var ready := set t | t in threads && threads[t].notified;
      events := {};
      while ready != {} && |events| < MAX_POLL
        invariant events + ready == Notified(Abs()) && |events| <= MAX_POLL
        decreases |ready|
      {
        var t :| t in ready;
        events, ready := events + {t}, ready - {t};
      }
    }

    /** The fetcher's loop once it has been told to stop: it ends, with everything written if it had been told of
        it, and with the exited threads released if all are idle or gone. */
    method FinishAndExit()
      requires Calm(Abs())
      modifies this
      ensures Calm(Abs()) && Pass(old(Abs()), Abs())
      ensures Announced(old(Abs())) ==> Unwritten(Abs()) == {}
      ensures Quiet(old(Abs())) ==> Drained(Abs())
    {
      PassNone(Abs());
      while true
        invariant Calm(Abs()) && Pass(old(Abs()), Abs())
        decreases |Unwritten(Abs())|, |Notified(Abs())|
      {
        hide Unwritten, Notified, Pass, Calm, Quiet, Announced, Drained, Stuck;
        ghost var s := Abs();
        var events := PollReady();
        ServeEvents(events);
        ghost var m := Abs();
        var total := DrainRounds();
        PassTrans(s, m, Abs());
        PassTrans(old(Abs()), s, Abs());
        if events == {} && total == 0 {
          NothingLeft(old(Abs()), m, Abs());
          return;
        }
        PassShrinks(s, m, events, Abs(), total);
      }
    }
  }

  /** The events not in `todo` have been taken; if nothing has been written on the way, their rings cannot be
      handled any further. */
  ghost predicate Served(s0: State, s: State, events: set<ThreadId>, todo: set<ThreadId>) {
    && Calm(s) && Pass(s0, s)
    && todo <= Notified(s) && Notified(s) == Notified(s0) - (events - todo)
    && (forall t :: t in events && t !in todo && t in s.threads ==> s.threads[t].registered)
    && (Unwritten(s) == Unwritten(s0) ==> forall t :: t in events && t !in todo ==> Stuck(s, t))
  }

  lemma NotifiedKept(s: State, s': State, t: ThreadId)
    requires OnlyRing(s, s', t) && t !in Notified(s)
    ensures Notified(s') == Notified(s)
  {
  }

  lemma ServePoll(s0: State, s: State, events: set<ThreadId>, todo: set<ThreadId>, t: ThreadId)
    requires Served(s0, s, events, todo) && todo <= events && t in todo
    ensures Enabled(s, Poll(t)) && Calm(DoPoll(s, t)) && Pass(s0, DoPoll(s, t))
    ensures Unwritten(DoPoll(s, t)) == Unwritten(s) && Notified(DoPoll(s, t)) == Notified(s) - {t}
  {
    PassPoll(s, t);
    PassTrans(s0, s, DoPoll(s, t));
    ReachesTrans(Init, s, DoPoll(s, t));
  }

  lemma ServeNext(s0: State, s: State, events: set<ThreadId>, todo: set<ThreadId>, t: ThreadId, s': State, n: nat)
    requires Served(s0, s, events, todo) && todo <= events && t in todo && Enabled(s, Poll(t))
    requires Calm(s') && Pass(DoPoll(s, t), s') && OnlyRing(DoPoll(s, t), s', t) && Stuck(s', t)
    requires |Unwritten(s')| + n == |Unwritten(DoPoll(s, t))| && (n == 0 ==> OnlyRelease(DoPoll(s, t), s', t))
    ensures Served(s0, s', events, todo - {t})
  {
    hide Calm, Unwritten, Reaches, Notified, Stuck;
    ServePoll(s0, s, events, todo, t);
    PassTrans(s0, DoPoll(s, t), s');
    NotifiedKept(DoPoll(s, t), s', t);
    ServedStuck(s0, s, events, todo, t, s', n);
  }

  lemma ServedStuck(s0: State, s: State, events: set<ThreadId>, todo: set<ThreadId>, t: ThreadId, s': State, n: nat)
    requires Enabled(s, Poll(t)) && Unwritten(DoPoll(s, t)) == Unwritten(s)
    requires Pass(s0, s) && Pass(DoPoll(s, t), s') && Stuck(s', t)
    requires |Unwritten(s')| + n == |Unwritten(s)| && (n == 0 ==> OnlyRelease(DoPoll(s, t), s', t))
    requires Unwritten(s) == Unwritten(s0) ==> forall u :: u in events && u !in todo ==> Stuck(s, u)
    ensures Unwritten(s') == Unwritten(s0) ==> forall u :: u in events && u !in todo - {t} ==> Stuck(s', u)
  {
    if Unwritten(s') == Unwritten(s0) {
      hide Calm, Reaches;
      assert Unwritten(s) == Unwritten(s0);
      forall u | u in events && u !in todo - {t} ensures Stuck(s', u) {
        assert u != t ==> Stuck(s, u);
      }
    }
  }

  /** A pass that takes an event or writes something leaves less to do. */
  lemma PassShrinks(s: State, m: State, events: set<ThreadId>, e: State, total: nat)
    requires Pass(s, m) && Notified(m) == Notified(s) - events && events <= Notified(s)
    requires Pass(m, e) && |Unwritten(e)| + total == |Unwritten(m)| && (events != {} || total > 0)
    ensures |Unwritten(e)| < |Unwritten(s)| || (|Unwritten(e)| == |Unwritten(s)| && |Notified(e)| < |Notified(s)|)
  {
    hide Unwritten, Reaches;
    FewerThan(Unwritten(m), Unwritten(s));
    FewerThan(Notified(e), Notified(m));
    FewerThan(Notified(m), Notified(s));
  }

  lemma FewerThan<T>(a: set<T>, b: set<T>)
    requires a <= b
    ensures |a| <= |b| && (a != b ==> |a| < |b|)
  {
    assert b == a + (b - a);
  }

  /** When a whole pass finds nothing to do. */
  lemma NothingLeft(s: State, m: State, e: State)
    requires Pass(s, e) && Calm(e) && Pass(m, e) && Notified(m) == {} && forall t :: Stuck(e, t)
    ensures Announced(s) ==> Unwritten(e) == {}
    ensures Quiet(s) ==> Drained(e)
  {
    hide Unwritten, Reaches;
    assert Notified(e) == {};
    AnnouncedStays(s, e);
    if Announced(s) {
      StuckMeansWritten(e);
    }
    if Quiet(s) {
      StuckMeansDrained(e);
    }
  }

  lemma NotStuck(s: State, t: ThreadId)
    requires Enabled(s, Fetch(t))
    ensures !Stuck(s, t)
  {
  }

  lemma SettledStays(s: State, s': State)
    requires Settled(s) && Pass(s, s')
    ensures Settled(s')
  {
    forall t | t in s'.threads
      ensures !s'.threads[t].pc.Holding? && (s'.threads[t].ring != [] ==> s'.threads[t].registered)
    {
      assert KeepsKnown(s.threads[t], s'.threads[t]);
    }
  }

  lemma AnnouncedStays(s: State, s': State)
    requires Pass(s, s') && Notified(s') == {}
    ensures Announced(s) ==> Settled(s')
    ensures Quiet(s) ==> Quiet(s')
  {
    forall t | t in s'.threads
      ensures Announced(s) ==>
        !s'.threads[t].pc.Holding? && (s'.threads[t].ring != [] ==> s'.threads[t].registered)
    {
      assert t !in Notified(s');
      assert KeepsKnown(s.threads[t], s'.threads[t]);
    }
  }

  /** When nothing is in hand, every filled ring is known and no ring can be handled, everything is written,
      whatever the producers have reserved or are about to notify. */
  lemma StuckMeansWritten(s: State)
    requires Calm(s) && Settled(s) && forall t :: Stuck(s, t)
    ensures Unwritten(s) == {}
  {
    CalmInv(s);
    if Unwritten(s) != {} {
      var t := NoDeadlock(s);
      NotStuck(s, t);
      assert false;
    }
  }

  /** When no producer is at work, no event is pending and nothing can be handled, everything is out. */
  lemma StuckMeansDrained(s: State)
    requires Calm(s) && Quiet(s) && Notified(s) == {} && forall t :: Stuck(s, t)
    ensures Drained(s)
  {
    CalmInv(s);
    forall t | t in s.threads
      ensures !s.threads[t].pc.Holding? && (s.threads[t].ring != [] ==> s.threads[t].registered)
    {
      assert RingInv(s, t);
      assert t !in Notified(s);
    }
    StuckMeansWritten(s);
    AllWritten(s);
    forall t | t in s.threads ensures s.threads[t].ring == [] && s.threads[t].pc != Gone(true) {
      assert Stuck(s, t);
      assert RingInv(s, t);
    }
  }
}
