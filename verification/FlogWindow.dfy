/** The window between the two tail writes of a push that ends behind the last cell, in flog/flog.c.

    Whether a run can be broken by a misreading, which thread's ring can be misread, and that it does happen.
 */
module FlogWindow {
  import opened Fmbuf
  import opened FlogPipeline
  import opened FlogGuarantees

  // ------------------------------------------------------------------ without a landing nothing breaks

  /** A push of this step ends exactly behind the last cell of its ring. */
  predicate LandingStep(s: State, e: Event)
    requires Enabled(s, e)
  {
    match e
    case Publish(t) =>
      var th := s.threads[t];
      th.pc.copied && Lands(th.cap, th.tail, HEAD_SIZE + |th.pc.body|)
    case QuitPush(t) =>
      var th := s.threads[t];
      Weight(th.ring) + QUIT_SIZE <= th.cap && Lands(th.cap, th.tail, QUIT_SIZE)
    case _ => false
  }

  ghost predicate NoLanding(s: State, es: seq<Event>)
    decreases |es|
  {
    es != [] && Enabled(s, es[0]) ==> !LandingStep(s, es[0]) && NoLanding(Apply(s, es[0]), es[1..])
  }

  ghost predicate NoWindow(s: State) {
    forall t :: t in s.threads ==> !s.threads[t].pc.Settling?
  }

  lemma StepOpensNoWindow(s: State, e: Event)
    requires NoWindow(s) && Enabled(s, e) && !LandingStep(s, e)
    ensures NoWindow(Apply(s, e)) && !Apply(s, e).broken
  {
    hide TailAfter, Weight;
  }

  /** A run in which no push lands is never broken: the guarantees then hold without reserve. */
  lemma {:induction false} NoLandingNoMisread(s: State, es: seq<Event>, s': State)
    requires NoWindow(s) && !s.broken && Run(s, es, s') && NoLanding(s, es)
    ensures NoWindow(s') && !s'.broken
    decreases |es|
  {
    if es != [] {
      StepOpensNoWindow(s, es[0]);
      NoLandingNoMisread(Apply(s, es[0]), es[1..], s');
    }
  }

  // ------------------------------------------------------------------ which ring can be misread

  /** The step is one of the logging thread itself. */
  predicate StepOf(e: Event, t: ThreadId) {
    match e
    case CreateThread(u, _) => u == t
    case Reserve(u, _, _) => u == t
    case TakeAid(u, _) => u == t
    case Publish(u) => u == t
    case QuitPush(u) => u == t
    case Settle(u) => u == t
    case Notify(u) => u == t
    case _ => false
  }

  predicate Without(es: seq<Event>, t: ThreadId) {
    forall i :: 0 <= i < |es| ==> !StepOf(es[i], t)
  }

  lemma StepLeaves(s: State, e: Event, t: ThreadId)
    requires Enabled(s, e) && !StepOf(e, t)
    ensures t in Apply(s, e).threads ==>
      && t in s.threads
      && var th, th' := s.threads[t], Apply(s, e).threads[t];
         th'.pc == th.pc && (th'.notified ==> th.notified) && (th'.registered ==> th.registered || th.notified)
  {
    hide TailAfter, Weight, Lands;
  }

  /** While others move, a thread stays where it is, and its ring becomes known only by a wakeup it had sent. */
  lemma {:induction false} StaysPut(s: State, es: seq<Event>, s': State, t: ThreadId)
    requires Run(s, es, s') && Without(es, t)
    ensures t in s'.threads ==>
      && t in s.threads
      && var th, th' := s.threads[t], s'.threads[t];
         th'.pc == th.pc && (th'.notified ==> th.notified) && (th'.registered ==> th.registered || th.notified)
    decreases |es|
  {
    if es != [] {
      StepLeaves(s, es[0], t);
      StaysPut(Apply(s, es[0]), es[1..], s', t);
    }
  }

  /** A QUIT that lands is never misread: it is still in the ring, and the ring goes with it. */
  lemma OnlyMessagesAreMisread(s: State, t: ThreadId)
    requires Inv(s) && Enabled(s, Misread(t))
    ensures s.threads[t].pc == Settling(false)
  {
    assert RingInv(s, t);
  }

  /** What `u` holds is published, and the fetcher knows of its ring. */
  ghost predicate AtRest(th: Thread) {
    !th.pc.Holding? && (th.ring != [] ==> th.registered)
  }

  function Rank(th: Thread): nat {
    if th.pc.Holding? then 4
    else if th.pc.Settling? then 3
    else if th.pc.Notifying? then 2
    else if th.registered then 0
    else 1
  }

  /** The next step on the way to rest. */
  function Onward(th: Thread, u: ThreadId): Event {
    if th.pc.Holding? then Publish(u)
    else if th.pc.Settling? then Settle(u)
    else if th.pc.Notifying? then Notify(u)
    else Poll(u)
  }

  lemma OnwardStep(s: State, u: ThreadId)
    requires Inv(s) && !s.broken && u in s.threads && !AtRest(s.threads[u])
    ensures var e := Onward(s.threads[u], u);
      && Enabled(s, e) && !Apply(s, e).broken && Apply(s, e).threads.Keys == s.threads.Keys
      && (forall v :: v in s.threads && v != u ==> Apply(s, e).threads[v] == s.threads[v])
      && Rank(Apply(s, e).threads[u]) < Rank(s.threads[u])
  {
    hide Own, FileBodies, WellNumbered, Weight, TailAfter, Lands, Carries, WrittenPrefix, ThreadShape;
    assert RingInv(s, u);
  }

  /** A thread other than `t` comes to rest. */
  lemma {:induction false} SettleOne(s: State, u: ThreadId, t: ThreadId) returns (es: seq<Event>, s': State)
    requires Inv(s) && !s.broken && u in s.threads && u != t
    ensures Run(s, es, s') && Without(es, t) && Inv(s') && !s'.broken && s'.threads.Keys == s.threads.Keys
    ensures forall v :: v in s.threads && v != u ==> s'.threads[v] == s.threads[v]
    ensures AtRest(s'.threads[u])
    decreases Rank(s.threads[u])
  {
    hide Inv, Apply, Enabled;
    if AtRest(s.threads[u]) {
      es, s' := [], s;
    } else {
      var e := Onward(s.threads[u], u);
      OnwardStep(s, u);
      StepInv(s, e);
      var rest;
      rest, s' := SettleOne(Apply(s, e), u, t);
      es := Chain(s, e, rest, s');
    }
  }

  /** All of them do, one after the other. */
  lemma {:induction false} SettleAll(s: State, todo: set<ThreadId>, t: ThreadId) returns (es: seq<Event>, s': State)
    requires Inv(s) && !s.broken && todo <= s.threads.Keys && t !in todo
    ensures Run(s, es, s') && Without(es, t) && Inv(s') && !s'.broken && s'.threads.Keys == s.threads.Keys
    ensures forall v :: v in s.threads && v !in todo ==> s'.threads[v] == s.threads[v]
    ensures forall v :: v in todo ==> AtRest(s'.threads[v])
    decreases |todo|
  {
    hide Inv, Run, AtRest;
    if todo == {} {
      es, s' := [], s;
      RunNone(s);
    } else {
      var u :| u in todo;
      var e1, m := SettleOne(s, u, t);
      var e2;
      e2, s' := SettleAll(m, todo - {u}, t);
      RunConcat(s, e1, m, e2, s');
      es := e1 + e2;
    }
  }

  lemma RunNone(s: State)
    ensures Run(s, [], s)
  {
  }

  /** Then the fetcher can write everything. */
  lemma {:induction false} DrainAll(s: State, t: ThreadId) returns (es: seq<Event>, s': State)
    requires Inv(s) && !s.broken && Settled(s)
    ensures Run(s, es, s') && Without(es, t) && Inv(s') && !s'.broken && Unwritten(s') == {}
    ensures s'.threads.Keys == s.threads.Keys
    ensures forall v :: v in s.threads ==> s'.threads[v] == s.threads[v].(ring := s'.threads[v].ring)
    decreases Unwritten(s)
  {
    hide Inv, Run;
    if Unwritten(s) == {} {
      es, s' := [], s;
      RunNone(s);
    } else {
      var u := NoDeadlock(s);
      FetchShrinks(s, u);
      StepInv(s, Fetch(u));
      var rest;
      rest, s' := DrainAll(DoFetch(s, u), t);
      es := Chain(s, Fetch(u), rest, s');
    }
  }

  lemma FetchShrinks(s: State, u: ThreadId)
    requires Inv(s) && Enabled(s, Fetch(u))
    ensures Unwritten(DoFetch(s, u)) < Unwritten(s)
  {
    hide Own, FileBodies, WellNumbered, Weight;
    assert RingInv(s, u);
    var p := FetchWrites(s, u);
    assert p in Unwritten(s) && p !in Unwritten(DoFetch(s, u));
  }

  /** Once everything is written, the ring of a thread between two tail writes of a message is empty. */
  lemma EmptyInWindow(s: State, t: ThreadId)
    requires Inv(s) && Unwritten(s) == {} && t in s.threads && s.threads[t].pc == Settling(false)
    ensures s.threads[t].ring == []
  {
    AllWritten(s);
    assert RingInv(s, t);
  }

  lemma AllAtRest(s: State, t: ThreadId)
    requires t in s.threads && !s.threads[t].pc.Holding? && s.threads[t].registered
    requires forall v :: v in s.threads && v != t ==> AtRest(s.threads[v])
    ensures Settled(s)
  {
  }

  /** Everybody but `t` can finish, and the fetcher can write everything. */
  lemma OthersFinish(s: State, t: ThreadId) returns (es: seq<Event>, s': State)
    requires Inv(s) && !s.broken && t in s.threads && !s.threads[t].pc.Holding?
    requires s.threads[t].registered || s.threads[t].notified
    ensures Run(s, es, s') && Without(es, t) && Inv(s') && !s'.broken && Unwritten(s') == {}
    ensures t in s'.threads && s'.threads[t].pc == s.threads[t].pc && s'.threads[t].registered
  {
    hide Inv, Run, Settled, AtRest, Unwritten;
    var e0, a := [], s;
    RunNone(s);
    if !s.threads[t].registered {
      a := Apply(s, Poll(t));
      e0 := Chain(s, Poll(t), [], a) by { RunNone(a); }
      StepInv(s, Poll(t));
    }
    var e1, b := SettleAll(a, a.threads.Keys - {t}, t);
    RunConcat(s, e0, a, e1, b);
    AllAtRest(b, t);
    var e2;
    e2, s' := DrainAll(b, t);
    RunConcat(s, e0 + e1, b, e2, s');
    es := e0 + e1 + e2;
  }

  /** The fetcher can misread the ring of a thread that stands in the window of a message and is known to the
      fetcher, or about to be: let everybody else finish and write everything. */
  lemma CanBeMisread(s: State, t: ThreadId) returns (es: seq<Event>, s': State)
    requires Inv(s) && !s.broken && t in s.threads && s.threads[t].pc == Settling(false)
    requires s.threads[t].registered || s.threads[t].notified
    ensures Run(s, es, s') && Without(es, t) && Enabled(s', Misread(t))
  {
    hide Inv, Run, Unwritten;
    es, s' := OthersFinish(s, t);
    EmptyInWindow(s', t);
  }

  ghost predicate LeadsToMisreading(s: State, t: ThreadId, es: seq<Event>, s': State) {
    Without(es, t) && Run(s, es, s') && Enabled(s', Misread(t))
  }

  /** While a thread stands still, its ring can be misread exactly if the thread is between the two tail writes
      of a message and the fetcher knows of the ring or has a wakeup from it. */
  lemma MisreadableIff(s: State, t: ThreadId)
    requires Inv(s) && !s.broken && t in s.threads
    ensures (exists es, s' :: LeadsToMisreading(s, t, es, s')) <==>
              s.threads[t].pc == Settling(false) && (s.threads[t].registered || s.threads[t].notified)
  {
    hide Inv, Run;
    if s.threads[t].pc == Settling(false) && (s.threads[t].registered || s.threads[t].notified) {
      var es, s' := CanBeMisread(s, t);
      assert LeadsToMisreading(s, t, es, s');
    }
    forall es, s' | LeadsToMisreading(s, t, es, s')
      ensures s.threads[t].pc == Settling(false) && (s.threads[t].registered || s.threads[t].notified)
    {
      RunInv(s, es, s');
      StaysPut(s, es, s', t);
      OnlyMessagesAreMisread(s', t);
    }
  }

  // ------------------------------------------------------------------ which record is released too early

  /** Once everything is written, a ring that holds a QUIT holds nothing else. */
  lemma OnlyQuitLeft(s: State, t: ThreadId)
    requires Inv(s) && Unwritten(s) == {} && t in s.threads
    requires s.threads[t].pc == Settling(true) || s.threads[t].pc == Notifying(true, true)
    ensures s.threads[t].ring == [Quit]
  {
    AllWritten(s);
    assert RingInv(s, t);
  }

  /** A ring whose head is QUIT belongs to a thread that has pushed it. */
  lemma QuitWasPushed(s: State, t: ThreadId)
    requires Inv(s) && Enabled(s, Release(t))
    ensures var pc := s.threads[t].pc; pc == Settling(true) || pc == Notifying(true, true) || pc == Gone(true)
  {
    assert RingInv(s, t);
    assert s.threads[t].ring[MsgCount(s.threads[t].ring)..] != [];
  }

  ghost predicate LeadsToRelease(s: State, t: ThreadId, es: seq<Event>, s': State) {
    Without(es, t) && Run(s, es, s') && Enabled(s', Release(t))
  }

  /** While an exiting thread stands still, its record can be released exactly if it has pushed its QUIT and the
      fetcher knows of the ring or has a wakeup from it.  A thread that is not gone yet still writes to the record:
      the second tail value if QUIT landed, and the eventfd. */
  lemma EarlyReleaseIff(s: State, t: ThreadId)
    requires Inv(s) && !s.broken && t in s.threads && !s.threads[t].pc.Gone?
    ensures (exists es, s' :: LeadsToRelease(s, t, es, s')) <==>
              && (s.threads[t].pc == Settling(true) || s.threads[t].pc == Notifying(true, true))
              && (s.threads[t].registered || s.threads[t].notified)
  {
    hide Inv, Run, Unwritten;
    var th := s.threads[t];
    if (th.pc == Settling(true) || th.pc == Notifying(true, true)) && (th.registered || th.notified) {
      var es, s' := OthersFinish(s, t);
      OnlyQuitLeft(s', t);
      assert LeadsToRelease(s, t, es, s');
    }
    forall es, s' | LeadsToRelease(s, t, es, s')
      ensures (th.pc == Settling(true) || th.pc == Notifying(true, true)) && (th.registered || th.notified)
    {
      RunInv(s, es, s');
      StaysPut(s, es, s', t);
      QuitWasPushed(s', t);
    }
  }

  // ------------------------------------------------------------------ it happens

  /** One message of the largest size is logged, fetched, and leaves the tail behind it. */
  lemma AfterOneMessage(t: ThreadId, f: FileId, cap: nat) returns (es: seq<Event>, s: State)
    requires HEAD_SIZE + MAX_MSG_LEN + 1 <= cap
    ensures Run(Init, es, s) && !s.broken && f in s.lastAid && t in s.threads
    ensures s.threads[t] == Thread(Idle, [], cap, HEAD_SIZE + MAX_MSG_LEN + 1, true, false)
  {
    hide Run, TailAfter;
    var body: Body := seq(MAX_MSG_LEN + 1, i => 0);
    var e1, a := OpenOne(t, f, cap);
    var e2, b := LogInPlace(a, t, f, body);
    RunConcat(Init, e1, a, e2, b);
    TailMoved(a.threads[t], HEAD_SIZE + |body|);
    var e3;
    e3, s := PollFetch(b, t);
    RunConcat(Init, e1 + e2, b, e3, s);
    es := e1 + e2 + e3;
  }

  lemma TailMoved(th: Thread, n: nat)
    ensures th.tail + n <= th.cap ==> TailAfter(th.cap, th.tail, n) == th.tail + n
  {
  }

  lemma PollFetch(s: State, t: ThreadId) returns (es: seq<Event>, s': State)
    requires !s.broken && t in s.threads && s.threads[t].notified
    requires |s.threads[t].ring| == 1 && s.threads[t].ring[0].Msg?
    requires s.threads[t].ring[0].file in s.currAid && s.threads[t].ring[0].file in s.written
    requires s.threads[t].ring[0].aid == s.currAid[s.threads[t].ring[0].file] + 1
    ensures Run(s, es, s') && !s'.broken && s'.lastAid == s.lastAid && t in s'.threads
    ensures s'.threads[t] == s.threads[t].(ring := [], registered := true, notified := false)
  {
    var a := Apply(s, Poll(t));
    s' := Apply(a, Fetch(t));
    RunNone(s');
    es := Chain(a, Fetch(t), [], s');
    es := Chain(s, Poll(t), es, s');
  }

  /** A run with two messages that the fetcher misreads: in a ring of 5001 cells the second message, copied,
      ends behind the last cell, and the fetcher takes it out before the tail is reset. */
  lemma MisreadIsReachable(t: ThreadId, f: FileId) returns (es: seq<Event>, s: State)
    ensures Run(Init, es, s) && Enabled(s, Misread(t))
  {
    hide Run, Inv;
    var e1, a := AfterOneMessage(t, f, 5000);
    var body: Body := seq(874, i => 0);
    var e2, b := TakeOne(a, t, f, body);
    RunConcat(Init, e1, a, e2, b);
    var c := Apply(b, Publish(t));
    assert c.threads[t].pc == Settling(false);
    RunNone(c);
    var e3 := Chain(b, Publish(t), [], c);
    RunConcat(Init, e1 + e2, b, e3, c);
    InitInv();
    RunInv(Init, e1 + e2 + e3, c);
    var e4;
    e4, s := CanBeMisread(c, t);
    RunConcat(Init, e1 + e2 + e3, c, e4, s);
    es := e1 + e2 + e3 + e4;
  }

  /** And a run in which QUIT lands: the tail stood on the last cell. */
  lemma QuitLandingIsReachable(t: ThreadId, f: FileId) returns (es: seq<Event>, s: State)
    ensures Run(Init, es, s) && Enabled(s, QuitPush(t)) && LandingStep(s, QuitPush(t))
  {
    es, s := AfterOneMessage(t, f, HEAD_SIZE + MAX_MSG_LEN + 1);
  }

  /** Runs in which the record of a thread can be released although the thread has still to write to it: before
      its eventfd_write, and even before the second tail value. */
  lemma EarlyReleaseIsReachable(t: ThreadId, f: FileId, landing: bool) returns (es: seq<Event>, s: State)
    ensures Run(Init, es, s) && Enabled(s, Release(t))
    ensures s.threads[t].pc == if landing then Settling(true) else Notifying(true, true)
  {
    hide Run;
    var e1, a := AfterOneMessage(t, f, HEAD_SIZE + MAX_MSG_LEN + 1 + (if landing then 0 else 1));
    s := Apply(a, QuitPush(t));
    RunNone(s);
    var e2 := Chain(a, QuitPush(t), [], s);
    RunConcat(Init, e1, a, e2, s);
    es := e1 + e2;
  }
}
