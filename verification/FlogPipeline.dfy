/** The asynchronous pipeline of flog/flog.c, as a protocol over its atomic steps.

    Every logging thread owns a ring.  To log one message a thread reserves room, takes the next id of the
    file with an atomic increment, publishes the filled frame by moving the tail of its ring, and notifies the
    fetcher through its eventfd.  A copied frame that ends exactly behind the last cell of the ring moves the
    tail twice, first one past that cell and then to the start; a fetcher that empties the ring in between
    takes it for full and reads bytes that are no frame (FmbufSpsc.GlitchIs).  The protocol is followed up to
    the first such misreading, which ends the run.  The fetcher removes the head frame of a ring only when its
    id is the successor of the last id it wrote to that file.  An exiting thread pushes a QUIT frame as its last frame.

    `taken` is the history of all atomic increments in the order they happened; it is the only history
    variable, and everything the protocol promises is stated against it.
 */
module FlogPipeline {
  import opened Bytes
  import opened Fmbuf

  type FileId = nat
  type ThreadId = nat
  type Body = seq<byte>

  // sizeof(log_fetch_msg_head_t): protocol id, file pointer, aid, length, packed
  const HEAD_SIZE: nat := 15
  const MAX_MSG_LEN: nat := 4096
  const QUIT_SIZE: nat := 1

  datatype Frame = Msg(file: FileId, aid: nat, body: Body) | Quit

  /** Where a logging thread stands.  `copied` says that the frame will not be written in place.  `Settling` is
      the stretch between the two tail writes of a push that ends behind the last cell, `Notifying` the stretch
      between a push and eventfd_write. */
  datatype Pc =
    | Idle
    | Reserved(file: FileId, limit: nat, copied: bool)
    | Holding(file: FileId, aid: nat, body: Body, copied: bool)
    | Settling(quitting: bool)
    | Notifying(quitting: bool, queued: bool)
    | Gone(queued: bool)

  /** `tail` is the cell behind the last frame; the ring has `cap` + 1 cells. */
  datatype Thread = Thread(pc: Pc, ring: seq<Frame>, cap: nat, tail: nat, registered: bool, notified: bool)

  datatype Take = Take(thread: ThreadId, file: FileId, aid: nat, body: Body)

  datatype State = State(
    lastAid: map<FileId, nat>,
    currAid: map<FileId, nat>,
    written: map<FileId, seq<Body>>,
    threads: map<ThreadId, Thread>,
    taken: seq<Take>,
    broken: bool)  // the fetcher has misread a ring

  datatype Event =
    | CreateFile(f: FileId)
    | CreateThread(t: ThreadId, cap: nat)
    | Reserve(t: ThreadId, f: FileId, headerLen: nat)
    | TakeAid(t: ThreadId, body: Body)
    | Publish(t: ThreadId)
    | QuitPush(t: ThreadId)
    | Settle(t: ThreadId)
    | Notify(t: ThreadId)
    | Poll(t: ThreadId)
    | Fetch(t: ThreadId)
    | Release(t: ThreadId)
    | Misread(t: ThreadId)

  // ------------------------------------------------------------------ steps

  function FrameSize(x: Frame): nat {
    match x
    case Msg(_, _, body) => HEAD_SIZE + |body|
    case Quit => QUIT_SIZE
  }

  function Weight(ring: seq<Frame>): nat {
    if ring == [] then 0 else Weight(ring[..|ring| - 1]) + FrameSize(ring[|ring| - 1])
  }

  /** The head frame of thread `t` is a message whose id is next for its file. */
  predicate Eligible(s: State, t: ThreadId) {
    && t in s.threads
    && s.threads[t].registered
    && s.threads[t].ring != []
    && s.threads[t].ring[0].Msg?
    && s.threads[t].ring[0].file in s.currAid
    && s.threads[t].ring[0].aid == s.currAid[s.threads[t].ring[0].file] + 1
  }

  predicate QuitAtHead(s: State, t: ThreadId) {
    && t in s.threads
    && s.threads[t].registered
    && s.threads[t].ring != []
    && s.threads[t].ring[0].Quit?
  }

  /** The ring is empty, but its tail is one past the last cell: the fetcher takes it for full. */
  predicate LooksFull(s: State, t: ThreadId) {
    && t in s.threads
    && s.threads[t].registered
    && s.threads[t].ring == []
    && s.threads[t].pc.Settling?
  }

  predicate Enabled(s: State, e: Event) {
    !s.broken && Possible(s, e)
  }

  predicate Possible(s: State, e: Event) {
    match e
    case CreateFile(f) => f !in s.lastAid
    case CreateThread(t, _) => t !in s.threads
    case Reserve(t, f, _) => t in s.threads && s.threads[t].pc.Idle? && f in s.lastAid
    case TakeAid(t, body) =>
      && t in s.threads && s.threads[t].pc.Reserved? && s.threads[t].pc.file in s.lastAid
      && |body| <= s.threads[t].pc.limit
    case Publish(t) => t in s.threads && s.threads[t].pc.Holding?
    case QuitPush(t) => t in s.threads && s.threads[t].pc.Idle?
    case Settle(t) => t in s.threads && s.threads[t].pc.Settling?
    case Notify(t) => t in s.threads && s.threads[t].pc.Notifying?
    case Poll(t) => t in s.threads && s.threads[t].notified
    case Fetch(t) => Eligible(s, t) && s.threads[t].ring[0].file in s.written
    case Release(t) => QuitAtHead(s, t)
    case Misread(t) => LooksFull(s, t)
  }

  function SetThread(s: State, t: ThreadId, th: Thread): State {
    s.(threads := s.threads[t := th])
  }

  /** The writer copies unless the room it reserves lies contiguous behind the tail.  A queue longer than its
      tail is far from the start goes around the end, and then the free cells are contiguous. */
  predicate Copies(cap: nat, tail: nat, weight: nat, reserved: nat) {
    (if tail < weight then cap - weight else cap - tail) < reserved
  }

  /** Reservation: refused (buffer full, message dropped, no id taken) unless the largest frame fits. */
  function DoReserve(s: State, t: ThreadId, f: FileId, headerLen: nat): State
    requires t in s.threads
  {
    var th := s.threads[t];
    var limit := headerLen + MAX_MSG_LEN + 1;
    if th.cap < Weight(th.ring) + HEAD_SIZE + limit then s
    else SetThread(s, t, th.(pc := Reserved(f, limit, Copies(th.cap, th.tail, Weight(th.ring), HEAD_SIZE + limit))))
  }

  function DoTake(s: State, t: ThreadId, body: Body): State
    requires Enabled(s, TakeAid(t, body))
  {
    var th := s.threads[t];
    var aid := s.lastAid[th.pc.file] + 1;
    SetThread(s, t, th.(pc := Holding(th.pc.file, aid, body, th.pc.copied)))
      .(lastAid := s.lastAid[th.pc.file := aid], taken := s.taken + [Take(t, th.pc.file, aid, body)])
  }

  function DoPublish(s: State, t: ThreadId): State
    requires Enabled(s, Publish(t))
  {
    var th := s.threads[t];
    var x := Msg(th.pc.file, th.pc.aid, th.pc.body);
    var pc := if th.pc.copied && Lands(th.cap, th.tail, FrameSize(x)) then Settling(false) else Notifying(false, false);
    SetThread(s, t, th.(pc := pc, ring := th.ring + [x], tail := TailAfter(th.cap, th.tail, FrameSize(x))))
  }

  /** The result of pushing QUIT is not looked at: on a full ring the frame is lost. */
  function DoQuitPush(s: State, t: ThreadId): State
    requires Enabled(s, QuitPush(t))
  {
    var th := s.threads[t];
    if Weight(th.ring) + QUIT_SIZE <= th.cap
    then
      var pc := if Lands(th.cap, th.tail, QUIT_SIZE) then Settling(true) else Notifying(true, true);
      SetThread(s, t, th.(pc := pc, ring := th.ring + [Quit], tail := TailAfter(th.cap, th.tail, QUIT_SIZE)))
    else SetThread(s, t, th.(pc := Notifying(true, false)))
  }

  function DoSettle(s: State, t: ThreadId): State
    requires Enabled(s, Settle(t))
  {
    var th := s.threads[t];
    SetThread(s, t, th.(pc := Notifying(th.pc.quitting, th.pc.quitting)))
  }

  function DoNotify(s: State, t: ThreadId): State
    requires Enabled(s, Notify(t))
  {
    var th := s.threads[t];
    SetThread(s, t, th.(notified := true, pc := if th.pc.quitting then Gone(th.pc.queued) else Idle))
  }

  function DoPoll(s: State, t: ThreadId): State
    requires Enabled(s, Poll(t))
  {
    SetThread(s, t, s.threads[t].(notified := false, registered := true))
  }

  function DoFetch(s: State, t: ThreadId): State
    requires Enabled(s, Fetch(t))
  {
    var th := s.threads[t];
    var x := th.ring[0];
    SetThread(s, t, th.(ring := th.ring[1..]))
      .(currAid := s.currAid[x.file := s.currAid[x.file] + 1],
        written := s.written[x.file := s.written[x.file] + [x.body]])
  }

  function DoRelease(s: State, t: ThreadId): State
    requires Enabled(s, Release(t))
  {
    s.(threads := s.threads - {t})
  }

  function Apply(s: State, e: Event): State
    requires Enabled(s, e)
  {
    match e
    case CreateFile(f) =>
      s.(lastAid := s.lastAid[f := 0], currAid := s.currAid[f := 0], written := s.written[f := []])
    case CreateThread(t, cap) => SetThread(s, t, Thread(Idle, [], cap, 0, false, false))
    case Reserve(t, f, headerLen) => DoReserve(s, t, f, headerLen)
    case TakeAid(t, body) => DoTake(s, t, body)
    case Publish(t) => DoPublish(s, t)
    case QuitPush(t) => DoQuitPush(s, t)
    case Settle(t) => DoSettle(s, t)
    case Notify(t) => DoNotify(s, t)
    case Poll(t) => DoPoll(s, t)
    case Fetch(t) => DoFetch(s, t)
    case Release(t) => DoRelease(s, t)
    case Misread(_) => s.(broken := true)
  }

  const Init: State := State(map[], map[], map[], map[], [], false)

  /** `es` is a possible interleaving from `s`, ending in `s'`. */
  ghost predicate Run(s: State, es: seq<Event>, s': State)
    decreases |es|
  {
    if es == [] then s == s'
    else Enabled(s, es[0]) && Run(Apply(s, es[0]), es[1..], s')
  }

  // ------------------------------------------------------------------ history

  /** Bodies taken for file `f`, in the order of the increments. */
  function FileBodies(h: seq<Take>, f: FileId): seq<Body> {
    if h == [] then []
    else
      var last := h[|h| - 1];
      FileBodies(h[..|h| - 1], f) + (if last.file == f then [last.body] else [])
  }

  /** Positions of the increments made by thread `t`. */
  function Own(h: seq<Take>, t: ThreadId): (own: seq<nat>)
    ensures forall k :: 0 <= k < |own| ==> own[k] < |h|
  {
    if h == [] then []
    else Own(h[..|h| - 1], t) + (if h[|h| - 1].thread == t then [|h| - 1] else [])
  }

  ghost predicate WellNumbered(h: seq<Take>) {
    forall i :: 0 <= i < |h| ==> h[i].aid == |FileBodies(h[..i + 1], h[i].file)|
  }

  /** Increment `i` of the history has reached its file. */
  ghost predicate Written(h: seq<Take>, curr: map<FileId, nat>, i: nat) {
    i < |h| && h[i].file in curr && h[i].aid <= curr[h[i].file]
  }

  ghost function Unwritten(s: State): set<nat> {
    set i: nat | i < |s.taken| && !Written(s.taken, s.currAid, i)
  }

  lemma {:induction false} OwnIncreasing(h: seq<Take>, t: ThreadId)
    ensures forall k :: 0 <= k < |Own(h, t)| ==> h[Own(h, t)[k]].thread == t
    ensures forall k, m :: 0 <= k < m < |Own(h, t)| ==> Own(h, t)[k] < Own(h, t)[m]
  {
    if h != [] {
      OwnIncreasing(h[..|h| - 1], t);
    }
  }

  lemma {:induction false} OwnComplete(h: seq<Take>, i: nat) returns (k: nat)
    requires i < |h|
    ensures k < |Own(h, h[i].thread)| && Own(h, h[i].thread)[k] == i
  {
    var t := h[i].thread;
    if i == |h| - 1 {
      k := |Own(h, t)| - 1;
    } else {
      k := OwnComplete(h[..|h| - 1], i);
    }
  }

  lemma {:induction false} FileBodiesPrefix(h: seq<Take>, n: nat, f: FileId)
    requires n <= |h|
    ensures FileBodies(h[..n], f) <= FileBodies(h, f)
  {
    if n == |h| {
      assert h[..n] == h;
    } else {
      assert h[..|h| - 1][..n] == h[..n];
      FileBodiesPrefix(h[..|h| - 1], n, f);
    }
  }

  /** The id of an increment is its rank among the increments of its file, so its body sits there. */
  lemma FileBodiesAt(h: seq<Take>, i: nat)
    requires i < |h| && WellNumbered(h)
    ensures 1 <= h[i].aid <= |FileBodies(h, h[i].file)|
    ensures FileBodies(h, h[i].file)[h[i].aid - 1] == h[i].body
  {
    FileBodiesPrefix(h, i + 1, h[i].file);
    assert h[..i + 1][..i] == h[..i];
  }

  /** Every id up to the count of its file was taken by some increment. */
  lemma {:induction false} FindTake(h: seq<Take>, f: FileId, a: nat) returns (i: nat)
    requires WellNumbered(h) && 1 <= a <= |FileBodies(h, f)|
    ensures i < |h| && h[i].file == f && h[i].aid == a
  {
    var g := h[..|h| - 1];
    assert WellNumbered(g) by {
      forall j | 0 <= j < |g| ensures g[j].aid == |FileBodies(g[..j + 1], g[j].file)| {
        assert g[..j + 1] == h[..j + 1];
      }
    }
    if a <= |FileBodies(g, f)| {
      i := FindTake(g, f, a);
    } else {
      i := |h| - 1;
      assert h[..i + 1] == h;
    }
  }

  /** Ids of one file grow with time, so a pair (file, id) names one increment. */
  lemma AidsIncrease(h: seq<Take>, i: nat, j: nat)
    requires i < j < |h| && WellNumbered(h) && h[i].file == h[j].file
    ensures h[i].aid < h[j].aid
  {
    var f := h[i].file;
    FileBodiesPrefix(h[..j], i + 1, f);
    assert h[..j][..i + 1] == h[..i + 1];
    assert h[..j + 1][..j] == h[..j];
  }

  // ------------------------------------------------------------------ invariant

  /** Number of message frames: QUIT, if any, is last. */
  function MsgCount(ring: seq<Frame>): nat {
    if ring != [] && ring[|ring| - 1].Quit? then |ring| - 1 else |ring|
  }

  function Held(pc: Pc): nat { if pc.Holding? then 1 else 0 }

  /** How many of the increments of `t` have left its ring. */
  function Base(s: State, t: ThreadId): int {
    |Own(s.taken, t)| - (if t in s.threads then MsgCount(s.threads[t].ring) + Held(s.threads[t].pc) else 0)
  }

  function AsFrame(x: Take): Frame { Msg(x.file, x.aid, x.body) }

  ghost predicate FilesInv(s: State) {
    && s.currAid.Keys == s.lastAid.Keys
    && s.written.Keys == s.lastAid.Keys
    && WellNumbered(s.taken)
    && (forall i :: 0 <= i < |s.taken| ==> s.taken[i].file in s.lastAid)
    && (forall f :: f in s.lastAid ==> s.lastAid[f] == |FileBodies(s.taken, f)|)
    && (forall f :: f in s.lastAid ==>
          s.currAid[f] <= s.lastAid[f] && s.written[f] == FileBodies(s.taken, f)[..s.currAid[f]])
  }

  /** Room is never overcommitted, and QUIT can only be the last frame of a thread that is leaving. */
  ghost predicate ThreadShape(th: Thread) {
    && Weight(th.ring) <= th.cap && th.tail <= th.cap
    && (th.pc.Settling? ==> th.tail == 0)
    && (th.pc.Reserved? ==> Weight(th.ring) + HEAD_SIZE + th.pc.limit <= th.cap)
    && (th.pc.Holding? ==> Weight(th.ring) + HEAD_SIZE + |th.pc.body| <= th.cap)
    && (th.pc.Reserved? && !th.pc.copied ==> th.tail + HEAD_SIZE + th.pc.limit <= th.cap)
    && (th.pc.Holding? && !th.pc.copied ==> th.tail + HEAD_SIZE + |th.pc.body| <= th.cap)
    && (forall j :: 0 <= j < MsgCount(th.ring) ==> th.ring[j].Msg?)
    && ((th.ring != [] && th.ring[|th.ring| - 1].Quit?) <==>
        (th.pc == Settling(true) || th.pc == Notifying(true, true) || th.pc == Gone(true)))
  }

  /** A frame waiting in a ring the fetcher does not know of has a wakeup on its way. */
  ghost predicate WakeupPending(th: Thread) {
    th.ring != [] && !th.registered ==> th.notified || th.pc.Notifying? || th.pc.Settling?
  }

  /** Of the increments of a thread, exactly the first `base` are written. */
  ghost predicate WrittenPrefix(h: seq<Take>, curr: map<FileId, nat>, own: seq<nat>, base: int) {
    0 <= base <= |own| && forall k :: 0 <= k < |own| ==> (Written(h, curr, own[k]) <==> k < base)
  }

  ghost predicate Shows(h: seq<Take>, own: seq<nat>, k: int, x: Frame) {
    0 <= k < |own| && own[k] < |h| && x == AsFrame(h[own[k]])
  }

  /** From `base` on, the increments of a thread are the messages of its ring and then the one it holds. */
  ghost predicate Carries(h: seq<Take>, own: seq<nat>, base: int, t: ThreadId, th: Thread) {
    && 0 <= base && |own| == base + MsgCount(th.ring) + Held(th.pc)
    && (forall j :: 0 <= j < MsgCount(th.ring) ==> Shows(h, own, base + j, th.ring[j]))
    && (th.pc.Holding? ==>
          own[|own| - 1] < |h| && h[own[|own| - 1]] == Take(t, th.pc.file, th.pc.aid, th.pc.body))
  }

  ghost predicate RingInv(s: State, t: ThreadId) {
    var own := Own(s.taken, t);
    && WrittenPrefix(s.taken, s.currAid, own, Base(s, t))
    && (t in s.threads ==>
          var th := s.threads[t];
          && ThreadShape(th)
          && WakeupPending(th)
          && (th.pc.Reserved? ==> th.pc.file in s.lastAid)
          && Carries(s.taken, own, Base(s, t), t, th))
  }

  ghost predicate Inv(s: State) {
    && FilesInv(s)
    && forall t: ThreadId :: RingInv(s, t)
  }

  // ------------------------------------------------------------------ every step keeps the invariant

  lemma InitInv()
    ensures Inv(Init)
  {
  }

  lemma OwnPush(h: seq<Take>, x: Take, t: ThreadId)
    ensures Own(h + [x], t) == if x.thread == t then Own(h, t) + [|h|] else Own(h, t)
  {
    assert (h + [x])[..|h|] == h;
  }

  lemma FileBodiesPush(h: seq<Take>, x: Take, f: FileId)
    ensures FileBodies(h + [x], f) == FileBodies(h, f) + (if x.file == f then [x.body] else [])
  {
    assert (h + [x])[..|h|] == h;
  }

  lemma WellNumberedPush(h: seq<Take>, x: Take)
    requires WellNumbered(h) && x.aid == |FileBodies(h, x.file)| + 1
    ensures WellNumbered(h + [x])
  {
    hide FileBodies;
    var g := h + [x];
    forall i | 0 <= i < |g| ensures g[i].aid == |FileBodies(g[..i + 1], g[i].file)| {
      if i < |h| {
        assert g[..i + 1] == h[..i + 1];
      } else {
        assert g[..i + 1] == g;
        FileBodiesPush(h, x, x.file);
      }
    }
  }

  /** Pushing or popping one frame changes the weight by that frame. */
  lemma WeightPush(ring: seq<Frame>, x: Frame)
    ensures Weight(ring + [x]) == Weight(ring) + FrameSize(x)
  {
    assert (ring + [x])[..|ring|] == ring;
  }

  lemma {:induction false} WeightPop(ring: seq<Frame>)
    requires ring != []
    ensures Weight(ring) == FrameSize(ring[0]) + Weight(ring[1..])
  {
    if |ring| == 1 {
      assert ring[1..] == [] && ring[..0] == [];
    } else {
      WeightPop(ring[..|ring| - 1]);
      assert ring[1..][..|ring| - 2] == ring[..|ring| - 1][1..];
    }
  }

  /** Thread `t` may become `th` as far as its own invariant is concerned. */
  ghost predicate MayBecome(s: State, t: ThreadId, th: Thread) {
    && t in s.threads
    && MsgCount(th.ring) + Held(th.pc) == MsgCount(s.threads[t].ring) + Held(s.threads[t].pc)
    && ThreadShape(th) && WakeupPending(th)
    && (th.pc.Reserved? ==> th.pc.file in s.lastAid)
    && Carries(s.taken, Own(s.taken, t), Base(s, t), t, th)
  }

  /** Steps of `t` that leave history and files alone keep everybody else's ring invariant. */
  lemma LocalStepInv(s: State, t: ThreadId, th: Thread)
    requires Inv(s) && MayBecome(s, t, th)
    ensures Inv(SetThread(s, t, th))
  {
    hide Own, FileBodies, WellNumbered, Weight, ThreadShape, WakeupPending, WrittenPrefix, Carries;
    var s' := SetThread(s, t, th);
    forall u: ThreadId ensures RingInv(s', u) {
      assert RingInv(s, u);
      assert Base(s', u) == Base(s, u);
    }
  }

  lemma CreateFileInv(s: State, f: FileId)
    requires Inv(s) && Enabled(s, CreateFile(f))
    ensures Inv(Apply(s, CreateFile(f)))
  {
    hide Own, Weight, WellNumbered;
    var s' := Apply(s, CreateFile(f));
    if FileBodies(s.taken, f) != [] {
      var i := FindTake(s.taken, f, 1);
    }
    forall u: ThreadId ensures RingInv(s', u) {
      assert RingInv(s, u);
      assert Base(s', u) == Base(s, u);
      assert WrittenPrefix(s.taken, s'.currAid, Own(s.taken, u), Base(s, u));
    }
  }

  lemma CreateThreadInv(s: State, t: ThreadId, cap: nat)
    requires Inv(s) && Enabled(s, CreateThread(t, cap))
    ensures Inv(Apply(s, CreateThread(t, cap)))
  {
    hide Own, FileBodies, WellNumbered;
    var s' := Apply(s, CreateThread(t, cap));
    forall u: ThreadId ensures RingInv(s', u) {
      assert RingInv(s, u);
      assert Base(s', u) == Base(s, u);
    }
  }

  lemma ReserveInv(s: State, t: ThreadId, f: FileId, headerLen: nat)
    requires Inv(s) && Enabled(s, Reserve(t, f, headerLen))
    ensures Inv(DoReserve(s, t, f, headerLen))
  {
    hide Own, FileBodies, WellNumbered, Weight;
    var th := s.threads[t];
    assert RingInv(s, t);
    if th.cap >= Weight(th.ring) + HEAD_SIZE + headerLen + MAX_MSG_LEN + 1 {
      LocalStepInv(s, t, DoReserve(s, t, f, headerLen).threads[t]);
    }
  }

  /** Publishing turns the held frame into the last frame of the ring. */
  lemma PublishCarries(h: seq<Take>, own: seq<nat>, base: int, t: ThreadId, th: Thread, th': Thread)
    requires Carries(h, own, base, t, th) && th.pc.Holding? && MsgCount(th.ring) == |th.ring| && !th'.pc.Holding?
    requires th'.ring == th.ring + [Msg(th.pc.file, th.pc.aid, th.pc.body)]
    ensures Carries(h, own, base, t, th')
  {
  }

  lemma QuitCarries(h: seq<Take>, own: seq<nat>, base: int, t: ThreadId, th: Thread, th': Thread)
    requires Carries(h, own, base, t, th) && MsgCount(th.ring) == |th.ring| && !th.pc.Holding? && !th'.pc.Holding?
    requires th'.ring == th.ring + [Quit]
    ensures Carries(h, own, base, t, th')
  {
  }

  lemma PublishShape(th: Thread, pc: Pc)
    requires ThreadShape(th) && th.pc.Holding?
    requires var n := HEAD_SIZE + |th.pc.body|;
      pc == Notifying(false, false) || (pc == Settling(false) && Lands(th.cap, th.tail, n))
    ensures var x := Msg(th.pc.file, th.pc.aid, th.pc.body);
      ThreadShape(th.(pc := pc, ring := th.ring + [x], tail := TailAfter(th.cap, th.tail, FrameSize(x))))
    ensures MsgCount(th.ring) == |th.ring|
  {
    WeightPush(th.ring, Msg(th.pc.file, th.pc.aid, th.pc.body));
  }

  lemma QuitShape(th: Thread, pc: Pc)
    requires ThreadShape(th) && th.pc.Idle? && Weight(th.ring) + QUIT_SIZE <= th.cap
    requires pc == Notifying(true, true) || (pc == Settling(true) && Lands(th.cap, th.tail, QUIT_SIZE))
    ensures ThreadShape(th.(pc := pc, ring := th.ring + [Quit], tail := TailAfter(th.cap, th.tail, QUIT_SIZE)))
    ensures MsgCount(th.ring) == |th.ring|
  {
    WeightPush(th.ring, Quit);
  }

  lemma PublishInv(s: State, t: ThreadId)
    requires Inv(s) && Enabled(s, Publish(t))
    ensures Inv(DoPublish(s, t))
  {
    hide Own, FileBodies, WellNumbered, Carries, WrittenPrefix, ThreadShape, TailAfter;
    var th, th' := s.threads[t], DoPublish(s, t).threads[t];
    assert RingInv(s, t);
    PublishShape(th, th'.pc);
    PublishCarries(s.taken, Own(s.taken, t), Base(s, t), t, th, th');
    LocalStepInv(s, t, th');
  }

  /** A thread whose QUIT is refused leaves its ring as it is. */
  lemma RefusedKeeps(h: seq<Take>, own: seq<nat>, base: int, t: ThreadId, th: Thread)
    requires ThreadShape(th) && Carries(h, own, base, t, th) && th.pc.Idle?
    ensures ThreadShape(th.(pc := Notifying(true, false)))
    ensures Carries(h, own, base, t, th.(pc := Notifying(true, false)))
  {
  }

  lemma QuitPushInv(s: State, t: ThreadId)
    requires Inv(s) && Enabled(s, QuitPush(t))
    ensures Inv(DoQuitPush(s, t))
  {
    hide Own, FileBodies, WellNumbered, WrittenPrefix, TailAfter, Weight, ThreadShape, Carries, Lands;
    var th, th' := s.threads[t], DoQuitPush(s, t).threads[t];
    assert RingInv(s, t);
    if Weight(th.ring) + QUIT_SIZE <= th.cap {
      QuitShape(th, th'.pc);
      QuitCarries(s.taken, Own(s.taken, t), Base(s, t), t, th, th');
    } else {
      RefusedKeeps(s.taken, Own(s.taken, t), Base(s, t), t, th);
    }
    LocalStepInv(s, t, th');
  }

  lemma SettleInv(s: State, t: ThreadId)
    requires Inv(s) && Enabled(s, Settle(t))
    ensures Inv(DoSettle(s, t))
  {
    hide Own, FileBodies, WellNumbered, WrittenPrefix;
    assert RingInv(s, t);
    assert ThreadShape(DoSettle(s, t).threads[t]);
    LocalStepInv(s, t, DoSettle(s, t).threads[t]);
  }

  /** A misreading is the end of the run; the state is still what it was. */
  lemma MisreadInv(s: State, t: ThreadId)
    requires Inv(s) && Enabled(s, Misread(t))
    ensures Inv(Apply(s, Misread(t)))
  {
    hide Own, FileBodies, WellNumbered, Weight, WrittenPrefix, Carries, ThreadShape;
    var s' := Apply(s, Misread(t));
    forall u: ThreadId ensures RingInv(s', u) {
      assert RingInv(s, u);
    }
  }

  lemma NotifyInv(s: State, t: ThreadId)
    requires Inv(s) && Enabled(s, Notify(t))
    ensures Inv(DoNotify(s, t))
  {
    hide Own, FileBodies, WellNumbered, WrittenPrefix;
    assert RingInv(s, t);
    var th := s.threads[t];
    assert ThreadShape(DoNotify(s, t).threads[t]);
    LocalStepInv(s, t, DoNotify(s, t).threads[t]);
  }

  lemma PollInv(s: State, t: ThreadId)
    requires Inv(s) && Enabled(s, Poll(t))
    ensures Inv(DoPoll(s, t))
  {
    hide Own, FileBodies, WellNumbered, WrittenPrefix;
    assert RingInv(s, t);
    assert ThreadShape(DoPoll(s, t).threads[t]);
    LocalStepInv(s, t, DoPoll(s, t).threads[t]);
  }

  lemma TakeFilesInv(s: State, t: ThreadId, body: Body)
    requires FilesInv(s) && Enabled(s, TakeAid(t, body))
    ensures FilesInv(DoTake(s, t, body))
  {
    hide FileBodies, WellNumbered;
    var x := DoTake(s, t, body).taken[|s.taken|];
    WellNumberedPush(s.taken, x);
    forall f ensures FileBodies(s.taken + [x], f) == FileBodies(s.taken, f) + (if x.file == f then [x.body] else []) {
      FileBodiesPush(s.taken, x, f);
    }
  }

  /** A new, unwritten increment at the end leaves the written prefix of every thread alone. */
  lemma PrefixKept(h: seq<Take>, curr: map<FileId, nat>, x: Take, own: seq<nat>, base: int, mine: bool)
    requires WrittenPrefix(h, curr, own, base) && !Written(h + [x], curr, |h|)
    requires forall k :: 0 <= k < |own| ==> own[k] < |h|
    ensures WrittenPrefix(h + [x], curr, if mine then own + [|h|] else own, base)
  {
    var own' := if mine then own + [|h|] else own;
    forall k | 0 <= k < |own'| ensures Written(h + [x], curr, own'[k]) <==> k < base {
      if k < |own| {
        assert Written(h, curr, own[k]) <==> k < base;
      }
    }
  }

  lemma CarriesKept(h: seq<Take>, x: Take, own: seq<nat>, base: int, t: ThreadId, th: Thread)
    requires Carries(h, own, base, t, th)
    ensures Carries(h + [x], own, base, t, th)
  {
    forall j | 0 <= j < MsgCount(th.ring) ensures Shows(h + [x], own, base + j, th.ring[j]) {
      assert Shows(h, own, base + j, th.ring[j]);
    }
  }

  lemma TakeRingInv(s: State, t: ThreadId, body: Body, u: ThreadId)
    requires FilesInv(s) && RingInv(s, u) && Enabled(s, TakeAid(t, body))
    ensures RingInv(DoTake(s, t, body), u)
  {
    hide Own, FileBodies, WellNumbered, Weight, WrittenPrefix, Carries;
    var s' := DoTake(s, t, body);
    var x := s'.taken[|s.taken|];
    OwnPush(s.taken, x, u);
    assert Base(s', u) == Base(s, u);
    PrefixKept(s.taken, s.currAid, x, Own(s.taken, u), Base(s, u), u == t);
    if u == t {
      CarriesTaken(s.taken, x, Own(s.taken, t), Base(s, t), t, s.threads[t], s'.threads[t].pc);
    } else if u in s.threads {
      CarriesKept(s.taken, x, Own(s.taken, u), Base(s, u), u, s.threads[u]);
    }
  }

  lemma CarriesTaken(h: seq<Take>, x: Take, own: seq<nat>, base: int, t: ThreadId, th: Thread, pc: Pc)
    requires Carries(h, own, base, t, th) && !th.pc.Holding?
    requires pc.Holding? && x == Take(t, pc.file, pc.aid, pc.body)
    ensures Carries(h + [x], own + [|h|], base, t, th.(pc := pc))
  {
    forall j | 0 <= j < MsgCount(th.ring) ensures Shows(h + [x], own + [|h|], base + j, th.ring[j]) {
      assert Shows(h, own, base + j, th.ring[j]);
    }
  }

  lemma TakeInv(s: State, t: ThreadId, body: Body)
    requires Inv(s) && Enabled(s, TakeAid(t, body))
    ensures Inv(DoTake(s, t, body))
  {
    hide Own, FileBodies, WellNumbered, Weight;
    TakeFilesInv(s, t, body);
    forall u: ThreadId ensures RingInv(DoTake(s, t, body), u) {
      assert RingInv(s, u);
      TakeRingInv(s, t, body, u);
    }
  }

  /** One fetch marks exactly one increment as written: the first unwritten one of its thread. */
  lemma FetchWrites(s: State, t: ThreadId) returns (p: nat)
    requires FilesInv(s) && RingInv(s, t) && Enabled(s, Fetch(t))
    ensures p < |s.taken| && AsFrame(s.taken[p]) == s.threads[t].ring[0]
    ensures 0 <= Base(s, t) < |Own(s.taken, t)| && p == Own(s.taken, t)[Base(s, t)]
    ensures forall i: nat :: Written(s.taken, DoFetch(s, t).currAid, i) <==> Written(s.taken, s.currAid, i) || i == p
  {
    hide Own, FileBodies, Weight;
    var s' := DoFetch(s, t);
    assert Shows(s.taken, Own(s.taken, t), Base(s, t) + 0, s.threads[t].ring[0]);
    p := Own(s.taken, t)[Base(s, t)];
    forall i: nat ensures Written(s.taken, s'.currAid, i) <==> Written(s.taken, s.currAid, i) || i == p {
      NextWritten(s.taken, s.currAid, p, i);
    }
  }

  /** Counting one id more makes just that increment a written one. */
  lemma NextWritten(h: seq<Take>, curr: map<FileId, nat>, p: nat, i: nat)
    requires WellNumbered(h) && p < |h| && h[p].file in curr && h[p].aid == curr[h[p].file] + 1
    ensures Written(h, curr[h[p].file := curr[h[p].file] + 1], i) <==> Written(h, curr, i) || i == p
  {
    hide WellNumbered;
    if i < |h| && h[i].file == h[p].file {
      if i < p { AidsIncrease(h, i, p); }
      if p < i { AidsIncrease(h, p, i); }
    }
  }

  lemma FetchFilesInv(s: State, t: ThreadId)
    requires FilesInv(s) && RingInv(s, t) && Enabled(s, Fetch(t))
    ensures FilesInv(DoFetch(s, t))
  {
    hide Own, Weight, WellNumbered, FileBodies;
    var p := FetchWrites(s, t);
    FileBodiesAt(s.taken, p);
    WrittenGrows(s, DoFetch(s, t), s.taken[p]);
  }

  lemma WrittenGrows(s: State, s': State, x: Take)
    requires FilesInv(s) && x.file in s.lastAid && x.aid == s.currAid[x.file] + 1
    requires x.aid <= |FileBodies(s.taken, x.file)| && FileBodies(s.taken, x.file)[x.aid - 1] == x.body
    requires s'.taken == s.taken && s'.lastAid == s.lastAid
    requires s'.currAid == s.currAid[x.file := x.aid]
    requires s'.written == s.written[x.file := s.written[x.file] + [x.body]]
    ensures FilesInv(s')
  {
    hide FileBodies, WellNumbered;
    var bodies := FileBodies(s.taken, x.file);
    assert bodies[..x.aid] == bodies[..x.aid - 1] + [bodies[x.aid - 1]];
  }

  lemma FetchCarries(h: seq<Take>, own: seq<nat>, base: int, t: ThreadId, th: Thread)
    requires Carries(h, own, base, t, th) && th.ring != [] && th.ring[0].Msg?
    ensures Carries(h, own, base + 1, t, th.(ring := th.ring[1..]))
  {
    var th' := th.(ring := th.ring[1..]);
    assert MsgCount(th'.ring) == MsgCount(th.ring) - 1;
    forall j | 0 <= j < MsgCount(th'.ring)
      ensures Shows(h, own, base + 1 + j, th'.ring[j])
    {
      assert th'.ring[j] == th.ring[j + 1];
      assert Shows(h, own, base + (j + 1), th.ring[j + 1]);
    }
  }

  lemma FetchShape(th: Thread)
    requires ThreadShape(th) && th.ring != [] && th.ring[0].Msg?
    ensures ThreadShape(th.(ring := th.ring[1..]))
  {
    WeightPop(th.ring);
    assert forall j :: 0 <= j < |th.ring| - 1 ==> th.ring[1..][j] == th.ring[j + 1];
  }

  lemma FetchPrefix(h: seq<Take>, curr: map<FileId, nat>, curr': map<FileId, nat>, own: seq<nat>, base: int)
    requires WrittenPrefix(h, curr, own, base) && base < |own|
    requires forall k, m :: 0 <= k < m < |own| ==> own[k] < own[m]
    requires forall i: nat :: Written(h, curr', i) <==> Written(h, curr, i) || i == own[base]
    ensures WrittenPrefix(h, curr', own, base + 1)
  {
  }

  lemma FetchPrefixInv(s: State, t: ThreadId)
    requires FilesInv(s) && RingInv(s, t) && Enabled(s, Fetch(t))
    ensures WrittenPrefix(s.taken, DoFetch(s, t).currAid, Own(s.taken, t), Base(s, t) + 1)
  {
    hide Own, FileBodies, WellNumbered, Weight, Carries, ThreadShape;
    var p := FetchWrites(s, t);
    OwnIncreasing(s.taken, t);
    FetchPrefix(s.taken, s.currAid, DoFetch(s, t).currAid, Own(s.taken, t), Base(s, t));
  }

  lemma FetchRingInv(s: State, t: ThreadId)
    requires FilesInv(s) && RingInv(s, t) && Enabled(s, Fetch(t))
    ensures RingInv(DoFetch(s, t), t)
  {
    hide Own, FileBodies, WellNumbered, Weight, WrittenPrefix, FilesInv;
    var s' := DoFetch(s, t);
    FetchPrefixInv(s, t);
    FetchShape(s.threads[t]);
    assert MsgCount(s'.threads[t].ring) == MsgCount(s.threads[t].ring) - 1 by { assert ThreadShape(s.threads[t]); }
    assert Base(s', t) == Base(s, t) + 1;
    FetchCarries(s.taken, Own(s.taken, t), Base(s, t), t, s.threads[t]);
    hide Carries, ThreadShape, MsgCount, Base;
  }

  lemma FetchInv(s: State, t: ThreadId)
    requires Inv(s) && Enabled(s, Fetch(t))
    ensures Inv(DoFetch(s, t))
  {
    hide Own, FileBodies, WellNumbered, Weight;
    var s' := DoFetch(s, t);
    assert RingInv(s, t);
    var p := FetchWrites(s, t);
    FetchFilesInv(s, t);
    FetchRingInv(s, t);
    OwnIncreasing(s.taken, t);
    forall u: ThreadId ensures RingInv(s', u) {
      assert RingInv(s, u);
      if u != t {
        OwnIncreasing(s.taken, u);
        assert Base(s', u) == Base(s, u);
        assert WrittenPrefix(s.taken, s'.currAid, Own(s.taken, u), Base(s, u));
      }
    }
  }

  lemma ReleaseInv(s: State, t: ThreadId)
    requires Inv(s) && Enabled(s, Release(t))
    ensures Inv(DoRelease(s, t))
    ensures s.threads[t].ring == [Quit] && Base(s, t) == |Own(s.taken, t)|
  {
    hide Own, FileBodies, WellNumbered, Weight;
    assert RingInv(s, t);
    assert MsgCount(s.threads[t].ring) == 0;
    hide Carries, ThreadShape, WrittenPrefix, MsgCount;
    var s' := DoRelease(s, t);
    forall u: ThreadId ensures RingInv(s', u) {
      assert RingInv(s, u);
      assert Base(s', u) == Base(s, u);
    }
  }

  lemma StepInv(s: State, e: Event)
    requires Inv(s) && Enabled(s, e)
    ensures Inv(Apply(s, e))
  {
    hide Inv, DoReserve, DoTake, DoPublish, DoQuitPush, DoSettle, DoNotify, DoPoll, DoFetch, DoRelease;
    match e {
      case CreateFile(f) => CreateFileInv(s, f);
      case CreateThread(t, cap) => CreateThreadInv(s, t, cap);
      case Reserve(t, f, headerLen) => ReserveInv(s, t, f, headerLen);
      case TakeAid(t, body) => TakeInv(s, t, body);
      case Publish(t) => PublishInv(s, t);
      case QuitPush(t) => QuitPushInv(s, t);
      case Settle(t) => SettleInv(s, t);
      case Notify(t) => NotifyInv(s, t);
      case Poll(t) => PollInv(s, t);
      case Fetch(t) => FetchInv(s, t);
      case Release(t) => ReleaseInv(s, t);
      case Misread(t) => MisreadInv(s, t);
    }
  }
}
