/** What the pipeline of flog/flog.c guarantees over every interleaving of its producers and its fetcher. */
module FlogGuarantees {
  import opened Fmbuf
  import opened FlogPipeline

  /** The invariant holds in whatever state an interleaving can reach. */
  lemma {:induction false} RunInv(s: State, es: seq<Event>, s': State)
    requires Inv(s) && Run(s, es, s')
    ensures Inv(s')
    decreases |es|
  {
    if es != [] {
      StepInv(s, es[0]);
      RunInv(Apply(s, es[0]), es[1..], s');
    }
  }

  lemma {:induction false} RunConcat(s: State, es: seq<Event>, m: State, es': seq<Event>, s': State)
    requires Run(s, es, m) && Run(m, es', s')
    ensures Run(s, es + es', s')
    decreases |es|
  {
    if es == [] {
      assert es + es' == es';
    } else {
      RunConcat(Apply(s, es[0]), es[1..], m, es', s');
      assert (es + es')[1..] == es[1..] + es';
    }
  }

  // ------------------------------------------------------------------ ordering

  /** Increment `i` gave `body` the id `k + 1` of file `f`. */
  ghost predicate TookRank(h: seq<Take>, i: nat, f: FileId, k: nat, body: Body) {
    i < |h| && h[i].file == f && h[i].aid == k + 1 && h[i].body == body
  }

  ghost predicate Took(h: seq<Take>, f: FileId, k: nat, body: Body) {
    exists i :: TookRank(h, i, f, k, body)
  }

  /** A file holds the messages with ids 1..curr_aid, each once, in the order the ids were taken. */
  lemma OutputInOrder(es: seq<Event>, s: State, f: FileId)
    requires Run(Init, es, s) && f in s.lastAid
    ensures f in s.currAid && f in s.written && |s.written[f]| == s.currAid[f] <= s.lastAid[f]
    ensures forall k :: 0 <= k < |s.written[f]| ==> Took(s.taken, f, k, s.written[f][k])
    ensures forall i, j :: 0 <= i < j < |s.taken| && s.taken[i].file == s.taken[j].file == f ==>
              s.taken[i].aid < s.taken[j].aid
  {
    hide FileBodies, Own, Weight, RingInv, WellNumbered, Run;
    InitInv();
    RunInv(Init, es, s);
    forall k | 0 <= k < |s.written[f]| ensures Took(s.taken, f, k, s.written[f][k]) {
      var i := FindTake(s.taken, f, k + 1);
      FileBodiesAt(s.taken, i);
      assert TookRank(s.taken, i, f, k, s.written[f][k]);
    }
    forall i, j | 0 <= i < j < |s.taken| && s.taken[i].file == s.taken[j].file == f
      ensures s.taken[i].aid < s.taken[j].aid
    {
      AidsIncrease(s.taken, i, j);
    }
  }

  lemma StepGrows(s: State, e: Event, f: FileId)
    requires s.written.Keys == s.lastAid.Keys && Enabled(s, e) && f in s.written
    ensures f in Apply(s, e).written && s.written[f] <= Apply(s, e).written[f]
    ensures s.taken <= Apply(s, e).taken
  {
    hide Weight, TailAfter, Lands, LooksFull;
  }

  /** Written output is only ever extended, and an id once taken stays with its message. */
  lemma {:induction false} OutputOnlyGrows(s: State, es: seq<Event>, s': State, f: FileId)
    requires Inv(s) && Run(s, es, s') && f in s.written
    ensures f in s'.written && s.written[f] <= s'.written[f]
    ensures s.taken <= s'.taken
    decreases |es|
  {
    if es != [] {
      StepInv(s, es[0]);
      StepGrows(s, es[0], f);
      OutputOnlyGrows(Apply(s, es[0]), es[1..], s', f);
    }
  }

  /** Two messages of one thread to one file come out in the order the thread logged them. */
  lemma ThreadOrder(es: seq<Event>, s: State, i: nat, j: nat)
    requires Run(Init, es, s) && i < j < |s.taken|
    requires s.taken[i].thread == s.taken[j].thread && Written(s.taken, s.currAid, j)
    ensures Written(s.taken, s.currAid, i)
  {
    InitInv();
    RunInv(Init, es, s);
    var t := s.taken[i].thread;
    assert RingInv(s, t);
    var k := OwnComplete(s.taken, i);
    var m := OwnComplete(s.taken, j);
    OwnIncreasing(s.taken, t);
  }

  // ------------------------------------------------------------------ conservation

  /** The places a taken id can be. */
  datatype Place = InFile | InRing(t: ThreadId, p: nat) | InHand(t: ThreadId)

  ghost predicate At(s: State, f: FileId, a: nat, place: Place) {
    match place
    case InFile => f in s.currAid && 1 <= a <= s.currAid[f]
    case InRing(t, p) =>
      && t in s.threads && p < |s.threads[t].ring|
      && s.threads[t].ring[p].Msg? && s.threads[t].ring[p].file == f && s.threads[t].ring[p].aid == a
    case InHand(t) =>
      t in s.threads && s.threads[t].pc.Holding? && s.threads[t].pc.file == f && s.threads[t].pc.aid == a
  }

  /** Which increment of its thread sits at a place. */
  ghost function Slot(s: State, place: Place): int
    requires !place.InFile?
  {
    if place.InRing? then Base(s, place.t) + place.p else |Own(s.taken, place.t)| - 1
  }

  /** The increment behind a place, and whether it is written. */
  lemma PlaceTake(s: State, f: FileId, a: nat, place: Place) returns (i: nat)
    requires Inv(s) && At(s, f, a, place)
    ensures i < |s.taken| && s.taken[i].file == f && s.taken[i].aid == a
    ensures Written(s.taken, s.currAid, i) <==> place.InFile?
    ensures !place.InFile? ==> s.taken[i].thread == place.t && 0 <= Slot(s, place) < |Own(s.taken, place.t)|
    ensures !place.InFile? ==> i == Own(s.taken, place.t)[Slot(s, place)]
  {
    hide Own, FileBodies, Weight, ThreadShape, WellNumbered;
    match place {
      case InFile => i := FindTake(s.taken, f, a);
      case InRing(t, p) =>
        assert RingInv(s, t);
        OwnIncreasing(s.taken, t);
        var k := Base(s, t) + p;
        assert Shows(s.taken, Own(s.taken, t), k, s.threads[t].ring[p]);
        i := Own(s.taken, t)[k];
      case InHand(t) =>
        assert RingInv(s, t);
        i := Own(s.taken, t)[|Own(s.taken, t)| - 1];
    }
  }

  lemma OnePlace(s: State, f: FileId, a: nat, x: Place, y: Place)
    requires Inv(s) && At(s, f, a, x) && At(s, f, a, y)
    ensures x == y
  {
    hide Own, FileBodies, Weight, ThreadShape, WellNumbered;
    var i := PlaceTake(s, f, a, x);
    var j := PlaceTake(s, f, a, y);
    if i < j { AidsIncrease(s.taken, i, j); }
    if j < i { AidsIncrease(s.taken, j, i); }
    if !x.InFile? {
      assert RingInv(s, x.t);
      OwnIncreasing(s.taken, x.t);
    }
  }

  lemma SomePlace(s: State, f: FileId, a: nat) returns (x: Place)
    requires Inv(s) && f in s.lastAid && 1 <= a <= s.lastAid[f]
    ensures At(s, f, a, x)
  {
    hide Own, FileBodies, Weight, ThreadShape, WellNumbered;
    var i := FindTake(s.taken, f, a);
    if a <= s.currAid[f] {
      x := InFile;
    } else {
      var t := s.taken[i].thread;
      assert RingInv(s, t);
      var k := OwnComplete(s.taken, i);
      assert k >= Base(s, t);
      var p := k - Base(s, t);
      if p < MsgCount(s.threads[t].ring) {
        assert Shows(s.taken, Own(s.taken, t), Base(s, t) + p, s.threads[t].ring[p]);
        x := InRing(t, p);
      } else {
        x := InHand(t);
      }
    }
  }

  /** Ids 1..last_aid, and no others, are each in exactly one place: the file, one ring slot, or one hand. */
  lemma Conservation(es: seq<Event>, s: State, f: FileId, a: nat)
    requires Run(Init, es, s) && f in s.lastAid
    ensures (exists x :: At(s, f, a, x)) <==> 1 <= a <= s.lastAid[f]
    ensures forall x, y :: At(s, f, a, x) && At(s, f, a, y) ==> x == y
  {
    hide Own, FileBodies, Weight, RingInv;
    InitInv();
    RunInv(Init, es, s);
    if 1 <= a <= s.lastAid[f] {
      var x := SomePlace(s, f, a);
    }
    forall x | At(s, f, a, x) ensures 1 <= a <= s.lastAid[f] {
      var i := PlaceTake(s, f, a, x);
      FileBodiesAt(s.taken, i);
    }
    forall x, y | At(s, f, a, x) && At(s, f, a, y) ensures x == y {
      OnePlace(s, f, a, x, y);
    }
  }

  // ------------------------------------------------------------------ rings and exit

  /** A reservation made earlier still covers the frame when it is published, whatever happened between. */
  lemma PublishFits(es: seq<Event>, s: State, t: ThreadId)
    requires Run(Init, es, s) && Enabled(s, Publish(t))
    ensures Weight(DoPublish(s, t).threads[t].ring) <= s.threads[t].cap
    ensures !s.threads[t].pc.copied ==> s.threads[t].tail + HEAD_SIZE + |s.threads[t].pc.body| <= s.threads[t].cap
  {
    InitInv();
    RunInv(Init, es, s);
    assert RingInv(s, t);
    PublishShape(s.threads[t], DoPublish(s, t).threads[t].pc);
  }

  /** QUIT releases a ring only when nothing else is in it and every message of its thread is written. */
  lemma ReleaseLosesNothing(es: seq<Event>, s: State, t: ThreadId)
    requires Run(Init, es, s) && Enabled(s, Release(t))
    ensures s.threads[t].ring == [Quit]
    ensures forall i: nat :: i < |s.taken| && s.taken[i].thread == t ==> Written(s.taken, s.currAid, i)
  {
    InitInv();
    RunInv(Init, es, s);
    ReleaseInv(s, t);
    assert RingInv(s, t);
    forall i: nat | i < |s.taken| && s.taken[i].thread == t ensures Written(s.taken, s.currAid, i) {
      var k := OwnComplete(s.taken, i);
    }
  }

  /** A leaving thread's QUIT gets into its ring exactly when the ring has a free byte. */
  lemma QuitQueuedIffRoom(es: seq<Event>, s: State, t: ThreadId)
    requires Run(Init, es, s) && Enabled(s, QuitPush(t))
    ensures Quit in DoQuitPush(s, t).threads[t].ring <==> Weight(s.threads[t].ring) < s.threads[t].cap
  {
    InitInv();
    RunInv(Init, es, s);
    assert RingInv(s, t);
    var ring := s.threads[t].ring;
    assert (ring + [Quit])[|ring|] == Quit;
  }

  /** The thread is exiting or has exited, and its QUIT was refused. */
  predicate QuitLost(s: State, t: ThreadId) {
    t in s.threads && (s.threads[t].pc == Gone(false) || s.threads[t].pc == Notifying(true, false))
  }

  lemma QuitStaysLost(s: State, e: Event, t: ThreadId)
    requires RingInv(s, t) && Enabled(s, e) && QuitLost(s, t)
    ensures QuitLost(Apply(s, e), t)
  {
    assert ThreadShape(s.threads[t]);
  }

  /** A thread that left a full ring keeps its record for ever: no run releases it. */
  lemma {:induction false} LostQuitNeverReleased(s: State, es: seq<Event>, s': State, t: ThreadId)
    requires Inv(s) && Run(s, es, s') && QuitLost(s, t)
    ensures QuitLost(s', t)
    decreases |es|
  {
    if es != [] {
      StepInv(s, es[0]);
      assert RingInv(s, t);
      QuitStaysLost(s, es[0], t);
      LostQuitNeverReleased(Apply(s, es[0]), es[1..], s', t);
    }
  }

  /** One file and one thread. */
  lemma OpenOne(t: ThreadId, f: FileId, cap: nat) returns (es: seq<Event>, s: State)
    ensures Run(Init, es, s)
    ensures s.lastAid == s.currAid == map[f := 0] && s.written == map[f := []] && s.taken == [] && !s.broken
    ensures s.threads == map[t := Thread(Idle, [], cap, 0, false, false)]
  {
    var a := Apply(Init, CreateFile(f));
    s := Apply(a, CreateThread(t, cap));
    assert Run(s, [], s);
    es := Chain(a, CreateThread(t, cap), [], s);
    es := Chain(Init, CreateFile(f), es, s);
  }

  /** The thread after it has logged `body` in place. */
  function Logged(th: Thread, f: FileId, aid: nat, body: Body): Thread {
    th.(ring := [Msg(f, aid, body)], tail := TailAfter(th.cap, th.tail, HEAD_SIZE + |body|), notified := true)
  }

  /** A frame in hand is published in place, and the fetcher is told. */
  lemma PublishInPlace(s: State, t: ThreadId) returns (es: seq<Event>, s': State)
    requires Enabled(s, Publish(t)) && !s.threads[t].pc.copied && s.threads[t].ring == []
    ensures Run(s, es, s')
    ensures var pc := s.threads[t].pc;
      s' == SetThread(s, t, Logged(s.threads[t].(pc := Idle), pc.file, pc.aid, pc.body))
  {
    var a := Apply(s, Publish(t));
    s' := Apply(a, Notify(t));
    var pc := s.threads[t].pc;
    assert s'.threads[t] == Logged(s.threads[t].(pc := Idle), pc.file, pc.aid, pc.body);
    assert s'.threads == s.threads[t := s'.threads[t]];
    assert Run(s', [], s');
    es := Chain(a, Notify(t), [], s');
    es := Chain(s, Publish(t), es, s');
  }

  /** A thread that now logs a message without a header will copy it. */
  predicate CopiesNow(th: Thread) {
    Copies(th.cap, th.tail, Weight(th.ring), HEAD_SIZE + MAX_MSG_LEN + 1)
  }

  /** An idle thread with an empty ring takes an id. */
  lemma TakeOne(s: State, t: ThreadId, f: FileId, body: Body) returns (es: seq<Event>, s': State)
    requires !s.broken && f in s.lastAid && t in s.threads && s.threads[t].pc.Idle? && s.threads[t].ring == []
    requires |body| <= MAX_MSG_LEN + 1 && HEAD_SIZE + MAX_MSG_LEN + 1 <= s.threads[t].cap
    ensures Run(s, es, s')
    ensures var th, aid := s.threads[t], s.lastAid[f] + 1;
      s' == SetThread(s, t, th.(pc := Holding(f, aid, body, CopiesNow(th))))
              .(lastAid := s.lastAid[f := aid], taken := s.taken + [Take(t, f, aid, body)])
  {
    var a := Apply(s, Reserve(t, f, 0));
    s' := Apply(a, TakeAid(t, body));
    assert s'.threads == s.threads[t := s'.threads[t]];
    assert Run(s', [], s');
    es := Chain(a, TakeAid(t, body), [], s');
    es := Chain(s, Reserve(t, f, 0), es, s');
  }

  /** An idle thread with an empty ring logs a message in place. */
  lemma LogInPlace(s: State, t: ThreadId, f: FileId, body: Body) returns (es: seq<Event>, s': State)
    requires !s.broken && f in s.lastAid && t in s.threads && s.threads[t].pc.Idle? && s.threads[t].ring == []
    requires |body| <= MAX_MSG_LEN + 1 && HEAD_SIZE + MAX_MSG_LEN + 1 <= s.threads[t].cap
    requires s.threads[t].tail + HEAD_SIZE + MAX_MSG_LEN + 1 <= s.threads[t].cap
    ensures Run(s, es, s')
    ensures var aid := s.lastAid[f] + 1;
      s' == SetThread(s, t, Logged(s.threads[t], f, aid, body))
              .(lastAid := s.lastAid[f := aid], taken := s.taken + [Take(t, f, aid, body)])
  {
    hide Run, TailAfter;
    var e1, m := TakeOne(s, t, f, body);
    var e2;
    e2, s' := PublishInPlace(m, t);
    RunConcat(s, e1, m, e2, s');
    es := e1 + e2;
    assert s'.threads == s.threads[t := s'.threads[t]];
  }

  /** A ring can be exactly full: here one largest message fills it to the last byte. */
  lemma FullRingIsReachable(t: ThreadId, f: FileId) returns (es: seq<Event>, s: State)
    ensures Run(Init, es, s) && Enabled(s, QuitPush(t)) && Weight(s.threads[t].ring) == s.threads[t].cap
  {
    hide Run, TailAfter;
    var body: Body := seq(MAX_MSG_LEN + 1, i => 0);
    var e1, m := OpenOne(t, f, HEAD_SIZE + MAX_MSG_LEN + 1);
    var e2;
    e2, s := LogInPlace(m, t, f, body);
    RunConcat(Init, e1, m, e2, s);
    es := e1 + e2;
    assert s.threads[t].ring[..0] == [];
  }

  lemma Chain(s: State, e: Event, es: seq<Event>, s': State) returns (all: seq<Event>)
    requires Enabled(s, e) && Run(Apply(s, e), es, s')
    ensures all == [e] + es && Run(s, all, s')
  {
    all := [e] + es;
    assert all[1..] == es;
  }

  // ------------------------------------------------------------------ progress

  /** The fetcher has been told of every ring that holds something, and no id is in a producer's hand. */
  ghost predicate Settled(s: State) {
    forall t :: t in s.threads ==>
      !s.threads[t].pc.Holding? && (s.threads[t].ring != [] ==> s.threads[t].registered)
  }

  lemma {:induction false} Least(s: set<nat>) returns (m: nat)
    requires s != {}
    ensures m in s && forall i :: i in s ==> m <= i
  {
    var n :| n in s;
    m := n;
    if s - {n} != {} {
      var k := Least(s - {n});
      m := if k < n then k else n;
    }
    forall i | i in s ensures m <= i {
      if i != n { assert i in s - {n}; }
    }
  }

  /** The earliest unwritten increment has the next id of its file. */
  lemma EarliestIsNext(s: State, i: nat)
    requires FilesInv(s) && i in Unwritten(s) && forall j :: j in Unwritten(s) ==> i <= j
    ensures s.taken[i].aid == s.currAid[s.taken[i].file] + 1
  {
    hide Own, FileBodies, Weight;
    var f, a := s.taken[i].file, s.taken[i].aid;
    FileBodiesAt(s.taken, i);
    if s.currAid[f] + 1 < a {
      var j := FindTake(s.taken, f, a - 1);
      assert j in Unwritten(s);
      if i < j { AidsIncrease(s.taken, i, j); }
    }
  }

  /** ... and is the first of its thread's increments that is not written. */
  lemma EarliestIsFirst(s: State, i: nat)
    requires i in Unwritten(s) && RingInv(s, s.taken[i].thread) && forall j :: j in Unwritten(s) ==> i <= j
    ensures 0 <= Base(s, s.taken[i].thread) < |Own(s.taken, s.taken[i].thread)|
    ensures Own(s.taken, s.taken[i].thread)[Base(s, s.taken[i].thread)] == i
  {
    hide Own, FileBodies, Weight;
    var t := s.taken[i].thread;
    var own, base := Own(s.taken, t), Base(s, t);
    var k := OwnComplete(s.taken, i);
    OwnIncreasing(s.taken, t);
    assert own[base] in Unwritten(s);
  }

  /** No deadlock: the earliest unwritten increment is at the head of its ring and is next for its file. */
  lemma NoDeadlock(s: State) returns (t: ThreadId)
    requires Inv(s) && !s.broken && Settled(s) && Unwritten(s) != {}
    ensures Enabled(s, Fetch(t))
  {
    hide Own, FileBodies, Weight, WellNumbered;
    var i := Least(Unwritten(s));
    t := s.taken[i].thread;
    assert RingInv(s, t);
    EarliestIsFirst(s, i);
    EarliestIsNext(s, i);
    assert Shows(s.taken, Own(s.taken, t), Base(s, t) + 0, s.threads[t].ring[0]);
  }

  lemma StillUnwritten(s: State, i: nat)
    requires i < |s.taken| && !Written(s.taken, s.currAid, i)
    ensures Unwritten(s) != {}
  {
    assert i in Unwritten(s);
  }

  /** Once nothing is unwritten, every file has reached its last id and no ring holds a message. */
  lemma AllWritten(s: State)
    requires Inv(s) && Unwritten(s) == {}
    ensures forall f :: f in s.lastAid ==> s.currAid[f] == s.lastAid[f] && s.written[f] == FileBodies(s.taken, f)
    ensures forall t :: t in s.threads ==> MsgCount(s.threads[t].ring) == 0
  {
    hide Own, FileBodies, Weight, WellNumbered;
    forall f | f in s.lastAid ensures s.currAid[f] == s.lastAid[f] {
      if s.currAid[f] < s.lastAid[f] {
        var i := FindTake(s.taken, f, s.lastAid[f]);
        StillUnwritten(s, i);
        assert false;
      }
    }
    forall t | t in s.threads ensures MsgCount(s.threads[t].ring) == 0 {
      assert RingInv(s, t);
      if MsgCount(s.threads[t].ring) > 0 {
        StillUnwritten(s, Own(s.taken, t)[Base(s, t)]);
        assert false;
      }
    }
  }
}
