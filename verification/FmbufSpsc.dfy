/** fmbuf/fmbuf.c as a queue between one producer and one consumer that do not lock.

    A push reads the other side's head once, copies byte by byte, and then publishes its own tail; a pop does
    the same the other way round.  When a copy ends exactly behind the last cell the index is first published
    as size + 1 and only then reset to the start: two writes, and the other side can look in between.
 */
module FmbufSpsc {
  import opened Bytes
  import opened Fmbuf
  import opened Modulo

  datatype Producer = PIdle | PCopy(data: seq<byte>, done: nat) | PReset
  datatype Consumer = CIdle | CCopy(n: nat, got: seq<byte>) | CReset

  /** `pushed` and `popped` are the bytes published by the producer and taken by the consumer so far. */
  datatype State = State(
    size: nat, cells: seq<byte>, head: nat, tail: nat,
    producer: Producer, consumer: Consumer,
    pushed: seq<byte>, popped: seq<byte>)

  datatype Event = PushStart(data: seq<byte>) | PushByte | PushPublish | PushReset
                 | PopStart(n: nat) | PopByte | PopPublish | PopReset

  /** The cell `i` places after cell `from`. */
  function Around(s: State, from: nat, i: nat): int {
    if from + i <= s.size then from + i else from + i - (s.size + 1)
  }

  predicate Enabled(s: State, e: Event) {
    match e
    case PushStart(_) => s.producer.PIdle?
    case PushByte =>
      && s.producer.PCopy? && s.producer.done < |s.producer.data|
      && 0 <= Around(s, s.tail, s.producer.done) < |s.cells|
    case PushPublish => s.producer.PCopy? && s.producer.done == |s.producer.data|
    case PushReset => s.producer.PReset?
    case PopStart(_) => s.consumer.CIdle?
    case PopByte =>
      && s.consumer.CCopy? && |s.consumer.got| < s.consumer.n
      && 0 <= Around(s, s.head, |s.consumer.got|) < |s.cells|
    case PopPublish => s.consumer.CCopy? && |s.consumer.got| == s.consumer.n
    case PopReset => s.consumer.CReset?
  }

  /** The index an operation of `n` bytes publishes first: size + 1 itself when it ends on the last cell. */
  function Landing(s: State, from: nat, n: nat): nat {
    if from + n <= s.size + 1 then from + n else from + n - (s.size + 1)
  }

  function Apply(s: State, e: Event): State
    requires Enabled(s, e)
  {
    match e
    case PushStart(data) =>
      if data != [] && FreeOf(s.size, s.head, s.tail) >= |data| then s.(producer := PCopy(data, 0)) else s
    case PushByte =>
      s.(cells := s.cells[Around(s, s.tail, s.producer.done) := s.producer.data[s.producer.done]],
         producer := s.producer.(done := s.producer.done + 1))
    case PushPublish =>
      var t := Landing(s, s.tail, |s.producer.data|);
      s.(tail := t, pushed := s.pushed + s.producer.data, producer := if t > s.size then PReset else PIdle)
    case PushReset => s.(tail := 0, producer := PIdle)
    case PopStart(n) =>
      if n > 0 && n <= UsedOf(s.size, s.head, s.tail) then s.(consumer := CCopy(n, [])) else s
    case PopByte =>
      s.(consumer := s.consumer.(got := s.consumer.got + [s.cells[Around(s, s.head, |s.consumer.got|)]]))
    case PopPublish =>
      var h := Landing(s, s.head, s.consumer.n);
      s.(head := h, popped := s.popped + s.consumer.got, consumer := if h > s.size then CReset else CIdle)
    case PopReset => s.(head := 0, consumer := CIdle)
  }

  ghost predicate Run(s: State, es: seq<Event>, s': State)
    decreases |es|
  {
    if es == [] then s == s'
    else Enabled(s, es[0]) && Run(Apply(s, es[0]), es[1..], s')
  }

  function Init(cells: seq<byte>): State
    requires cells != []
  {
    State(|cells| - 1, cells, 0, 0, PIdle, CIdle, [], [])
  }

  // ------------------------------------------------------------------ invariant

  /** The index an operation leaves behind once it is over. */
  function Settled(s: State, i: nat): nat { if i == s.size + 1 then 0 else i }

  ghost function Queue(s: State): seq<byte>
    requires |s.popped| <= |s.pushed|
  {
    s.pushed[|s.popped|..]
  }

  /** The cells from `from` on, around the end, hold `bytes`. */
  ghost predicate Holds(cells: seq<byte>, from: nat, bytes: seq<byte>) {
    from < |cells| && |bytes| <= |cells| && forall i :: 0 <= i < |bytes| ==> CellAt(cells, from, i) == bytes[i]
  }

  ghost predicate Inv(s: State) {
    && |s.cells| == s.size + 1
    && s.popped <= s.pushed
    && (if s.producer.PReset? then s.tail == s.size + 1 else s.tail <= s.size)
    && (if s.consumer.CReset? then s.head == s.size + 1 else s.head <= s.size)
    && Settled(s, s.tail) == |s.pushed| % (s.size + 1)
    && |Queue(s)| == UsedOf(s.size, Settled(s, s.head), Settled(s, s.tail))
    && Holds(s.cells, Settled(s, s.head), Queue(s))
    && (s.producer.PCopy? ==>
          && s.producer.done <= |s.producer.data| && 0 < |s.producer.data| <= s.size - |Queue(s)|
          && Holds(s.cells, s.tail, s.producer.data[..s.producer.done]))
    && (s.consumer.CCopy? ==>
          && |s.consumer.got| <= s.consumer.n && 0 < s.consumer.n <= |Queue(s)|
          && s.consumer.got == Queue(s)[..|s.consumer.got|])
  }

  /** The one moment at which the consumer misreads the queue: empty, with tail published but not reset. */
  predicate Glitch(s: State) {
    s.head == 0 && s.tail == s.size + 1
  }

  /** What the other side reads while an index is one past the last cell is what it will read afterwards:
      always for the producer, and for the consumer exactly outside the glitch. */
  lemma MomentaryIndex(s: State)
    requires Inv(s)
    ensures s.producer.PIdle? ==>
              FreeOf(s.size, s.head, s.tail) == FreeOf(s.size, Settled(s, s.head), s.tail) == s.size - |Queue(s)|
    ensures s.consumer.CIdle? ==> (UsedOf(s.size, s.head, s.tail) == |Queue(s)| <==> !Glitch(s))
  {
  }

  /** The producer never writes a cell that is still to be read. */
  lemma NoOverwrite(s: State, i: nat)
    requires Inv(s) && Enabled(s, PushByte) && i < |Queue(s)|
    ensures Around(s, s.tail, s.producer.done) != Around(s, Settled(s, s.head), i)
  {
  }

  lemma HoldsAppend(cells: seq<byte>, from: nat, q: seq<byte>, at: nat, d: seq<byte>)
    requires Holds(cells, from, q) && Holds(cells, at, d) && |q| + |d| <= |cells|
    requires at == (if from + |q| < |cells| then from + |q| else from + |q| - |cells|)
    ensures Holds(cells, from, q + d)
  {
    forall i | 0 <= i < |q + d| ensures CellAt(cells, from, i) == (q + d)[i] {
      if i >= |q| {
        assert CellAt(cells, at, i - |q|) == d[i - |q|];
      }
    }
  }

  lemma HoldsDrop(cells: seq<byte>, from: nat, q: seq<byte>, n: nat, at: nat)
    requires Holds(cells, from, q) && n <= |q|
    requires at == (if from + n < |cells| then from + n else from + n - |cells|)
    ensures Holds(cells, at, q[n..])
  {
    forall i | 0 <= i < |q[n..]| ensures CellAt(cells, at, i) == q[n..][i] {
      assert CellAt(cells, from, n + i) == q[n + i];
    }
  }

  lemma PushByteInv(s: State)
    requires Inv(s) && Enabled(s, PushByte)
    ensures Inv(Apply(s, PushByte))
  {
    var s' := Apply(s, PushByte);
    var done := s.producer.done;
    forall i | 0 <= i < |Queue(s)| ensures CellAt(s'.cells, Settled(s, s.head), i) == Queue(s)[i] {
      NoOverwrite(s, i);
      assert CellAt(s.cells, Settled(s, s.head), i) == Queue(s)[i];
    }
    forall j | 0 <= j < done + 1 ensures CellAt(s'.cells, s.tail, j) == s.producer.data[..done + 1][j] {
      if j < done {
        assert CellAt(s.cells, s.tail, j) == s.producer.data[..done][j];
      }
    }
  }

  lemma PushPublishInv(s: State)
    requires Inv(s) && Enabled(s, PushPublish)
    ensures Inv(Apply(s, PushPublish))
  {
    var s' := Apply(s, PushPublish);
    assert s.producer.data[..s.producer.done] == s.producer.data;
    assert Queue(s') == Queue(s) + s.producer.data;
    StepMod(|s.pushed|, |s.producer.data|, s.size + 1);
    HoldsAppend(s.cells, Settled(s, s.head), Queue(s), s.tail, s.producer.data);
  }

  lemma PopByteInv(s: State)
    requires Inv(s) && Enabled(s, PopByte)
    ensures Inv(Apply(s, PopByte))
  {
    var g := |s.consumer.got|;
    assert CellAt(s.cells, s.head, g) == Queue(s)[g];
    assert Queue(s)[..g + 1] == Queue(s)[..g] + [Queue(s)[g]];
  }

  lemma PopPublishInv(s: State)
    requires Inv(s) && Enabled(s, PopPublish)
    ensures Inv(Apply(s, PopPublish))
  {
    var s' := Apply(s, PopPublish);
    var n := s.consumer.n;
    assert Queue(s') == Queue(s)[n..];
    HoldsDrop(s.cells, s.head, Queue(s), n, Settled(s', s'.head));
    if s.producer.PCopy? {
      assert |Queue(s')| <= |Queue(s)|;
    }
  }

  /** Every step except a pop that starts in the glitch keeps the invariant. */
  lemma StepInv(s: State, e: Event)
    requires Inv(s) && Enabled(s, e)
    requires e.PopStart? ==> !Glitch(s)
    ensures Inv(Apply(s, e))
  {
    match e {
      case PushByte => PushByteInv(s);
      case PushPublish => PushPublishInv(s);
      case PopByte => PopByteInv(s);
      case PopPublish => PopPublishInv(s);
      case _ =>
    }
  }

  /** Where a push ends depends on nothing but how much was pushed before. */
  lemma LandsWhen(s: State, data: seq<byte>)
    requires Inv(s) && s.producer.PIdle? && 0 < |data| <= s.size + 1
    ensures LandsExactly(s, data) <==> (|s.pushed| + |data|) % (s.size + 1) == 0
  {
    StepMod(|s.pushed|, |data|, s.size + 1);
  }

  /** The glitch is the queue found empty between the two writes of an exact landing. */
  lemma GlitchIs(s: State)
    requires Inv(s) && s.consumer.CIdle?
    ensures Glitch(s) <==> s.producer.PReset? && s.popped == s.pushed
  {
    assert |Queue(s)| == 0 <==> s.popped == s.pushed;
  }

  // ------------------------------------------------------------------ runs

  /** A push of `data` begun now would end exactly behind the last cell (tail_free == size in fmbuf_push). */
  predicate LandsExactly(s: State, data: seq<byte>) {
    data != [] && Lands(s.size, s.tail, |data|)
  }

  /** The queue has room for `data` now. */
  predicate Accepts(s: State, data: seq<byte>) {
    data != [] && |data| <= FreeOf(s.size, s.head, s.tail)
  }

  predicate InexactStep(s: State, e: Event) {
    e.PushStart? && Accepts(s, e.data) ==> !LandsExactly(s, e.data)
  }

  /** No push the run accepts lands exactly behind the last cell. */
  ghost predicate NoExactLanding(s: State, es: seq<Event>)
    decreases |es|
  {
    es != [] && Enabled(s, es[0]) ==> InexactStep(s, es[0]) && NoExactLanding(Apply(s, es[0]), es[1..])
  }

  /** The tail is never seen one past the last cell, nor about to be. */
  predicate Inexact(s: State) {
    !s.producer.PReset? && (s.producer.PCopy? ==> !LandsExactly(s, s.producer.data))
  }

  lemma InitInv(cells: seq<byte>)
    requires cells != []
    ensures Inv(Init(cells)) && Inexact(Init(cells))
  {
  }

  lemma InexactNext(s: State, e: Event)
    requires Inv(s) && Inexact(s) && Enabled(s, e) && InexactStep(s, e)
    ensures Inv(Apply(s, e)) && Inexact(Apply(s, e))
  {
    StepInv(s, e);
  }

  /** In every interleaving without an exact landing, what was popped is a prefix of what was pushed. */
  lemma {:induction false} PoppedIsPrefix(s: State, es: seq<Event>, s': State)
    requires Inv(s) && Inexact(s) && Run(s, es, s') && NoExactLanding(s, es)
    ensures Inv(s') && Inexact(s') && s'.popped <= s'.pushed
    decreases |es|
  {
    if es != [] {
      InexactNext(s, es[0]);
      PoppedIsPrefix(Apply(s, es[0]), es[1..], s');
    }
  }

  // ------------------------------------------------------------------ the exact landing

  lemma {:induction false} RunConcat(s: State, es: seq<Event>, m: State, es': seq<Event>, s': State)
    requires Run(s, es, m) && Run(m, es', s')
    ensures Run(s, es + es', s')
    decreases |es|
  {
    if es == [] {
      assert es + es' == es';
    } else {
      RunConcat(Apply(s, es[0]), es[1..], m, es', s');
      assert (es + es')[1..] == es[1..] + es';
    }
  }

  predicate NoPush(es: seq<Event>) {
    forall i :: 0 <= i < |es| ==> !es[i].PushStart?
  }

  /** The producer, left alone, copies its data. */
  lemma {:induction false} FinishCopy(s: State) returns (es: seq<Event>, s': State)
    requires Inv(s) && s.producer.PCopy?
    ensures Run(s, es, s') && NoPush(es) && PopsOf(es, {}) && Inv(s')
    ensures s' == s.(cells := s'.cells, producer := s.producer.(done := |s.producer.data|))
    decreases if s.producer.PCopy? then |s.producer.data| - s.producer.done else 0
  {
    if s.producer.done == |s.producer.data| {
      es, s' := [], s;
    } else {
      var m := Apply(s, PushByte);
      StepInv(s, PushByte);
      var rest;
      rest, s' := FinishCopy(m);
      es := [PushByte] + rest;
      assert es[1..] == rest;
    }
  }

  /** The consumer, left alone, copies what it asked for: `n` bytes, whatever the cells hold. */
  lemma {:induction false} FinishRead(s: State) returns (es: seq<Event>, s': State)
    requires s.consumer.CCopy? && |s.consumer.got| <= s.consumer.n <= |s.cells| == s.size + 1 && s.head <= s.size
    ensures Run(s, es, s') && NoPush(es) && PopsOf(es, {})
    ensures s'.consumer.CCopy? && |s'.consumer.got| == s'.consumer.n == s.consumer.n
    ensures s' == s.(consumer := s'.consumer)
    decreases if s.consumer.CCopy? then s.consumer.n - |s.consumer.got| else 0
  {
    if |s.consumer.got| == s.consumer.n {
      es, s' := [], s;
    } else {
      var m := Apply(s, PopByte);
      var rest;
      rest, s' := FinishRead(m);
      es := [PopByte] + rest;
      assert es[1..] == rest;
    }
  }

  /** A whole pop of `n` bytes, begun when the consumer believes that many are there. */
  lemma WholePop(s: State, n: nat) returns (es: seq<Event>, s': State)
    requires s.consumer.CIdle? && |s.cells| == s.size + 1 && s.head <= s.size
    requires 0 < n <= UsedOf(s.size, s.head, s.tail) && n <= s.size + 1
    ensures Run(s, es, s') && NoPush(es) && PopsOf(es, {n})
    ensures s' == s.(head := s'.head, consumer := s'.consumer, popped := s'.popped)
    ensures |s'.popped| == |s.popped| + n && s'.head == Landing(s, s.head, n)
    ensures s'.consumer == if s'.head > s.size then CReset else CIdle
  {
    var m := Apply(s, PopStart(n));
    var copy, k := FinishRead(m);
    s' := Apply(k, PopPublish);
    assert Run(s', [], s');
    assert [PopPublish][1..] == [];
    assert Run(k, [PopPublish], s');
    RunConcat(m, copy, k, [PopPublish], s');
    es := [PopStart(n)] + (copy + [PopPublish]);
    assert es[1..] == copy + [PopPublish];
  }

  predicate PopsOf(es: seq<Event>, sizes: set<nat>) {
    forall i :: 0 <= i < |es| && es[i].PopStart? ==> es[i].n in sizes
  }

  /** The consumer, left alone, ends the pop it is in. */
  lemma {:induction false} FinishPop(s: State) returns (es: seq<Event>, s': State)
    requires Inv(s)
    ensures Run(s, es, s') && NoPush(es) && PopsOf(es, {}) && Inv(s')
    ensures s' == s.(head := s'.head, consumer := CIdle, popped := s'.popped)
    ensures |s'.popped| == |s.popped| + (if s.consumer.CCopy? then s.consumer.n else 0)
    decreases if s.consumer.CCopy? then s.consumer.n - |s.consumer.got| + 2 else if s.consumer.CReset? then 1 else 0
  {
    if s.consumer.CIdle? {
      es, s' := [], s;
    } else {
      var e := if s.consumer.CReset? then PopReset
               else if |s.consumer.got| == s.consumer.n then PopPublish else PopByte;
      StepInv(s, e);
      hide Inv;
      var rest;
      rest, s' := FinishPop(Apply(s, e));
      Chain(s, e, Apply(s, e), rest, s');
      es := [e] + rest;
    }
  }

  /** The producer, left alone, ends the push it is in. */
  lemma {:induction false} FinishPush(s: State) returns (es: seq<Event>, s': State)
    requires Inv(s)
    ensures Run(s, es, s') && NoPush(es) && PopsOf(es, {}) && Inv(s')
    ensures s' == s.(cells := s'.cells, tail := s'.tail, producer := PIdle, pushed := s'.pushed)
    ensures |s'.pushed| == |s.pushed| + (if s.producer.PCopy? then |s.producer.data| else 0)
    decreases if s.producer.PCopy? then |s.producer.data| - s.producer.done + 2 else if s.producer.PReset? then 1 else 0
  {
    if s.producer.PIdle? {
      es, s' := [], s;
    } else {
      var e := if s.producer.PReset? then PushReset
               else if s.producer.done == |s.producer.data| then PushPublish else PushByte;
      StepInv(s, e);
      hide Inv;
      var rest;
      rest, s' := FinishPush(Apply(s, e));
      Chain(s, e, Apply(s, e), rest, s');
      es := [e] + rest;
    }
  }

  /** The producer is idle, and the queue accepts `data`, which would land exactly. */
  ghost predicate AboutToLand(s: State, data: seq<byte>) {
    Inv(s) && s.producer.PIdle? && Accepts(s, data) && LandsExactly(s, data)
  }

  /** The producer is between the two writes of an exact landing, and the consumer idle before that end. */
  ghost predicate InWindow(s: State) {
    && Inv(s) && s.producer.PReset? && s.consumer.CIdle?
    && Queue(s) != [] && s.head + |Queue(s)| == s.size + 1
  }

  /** `data` has been pushed from `s` on, and nothing else; the consumer has at most ended the pop it was in. */
  ghost predicate PushedOnly(s: State, data: seq<byte>, w: State) {
    w.size == s.size && w.pushed == s.pushed + data && (s.consumer.CIdle? ==> w.popped == s.popped)
  }

  /** `n` bytes more than were ever pushed have been popped. */
  predicate Overrun(s: State, n: nat) {
    s.producer.PReset? && |s.popped| == |s.pushed| + n
  }

  /** In the window the consumer empties the queue and then reads `n` bytes that nobody pushed. */
  lemma OverrunInWindow(s: State, n: nat) returns (es: seq<Event>, s': State)
    requires InWindow(s) && 0 < n <= s.size + 1
    ensures Run(s, es, s') && NoPush(es) && PopsOf(es, {|Queue(s)|, n})
    ensures Overrun(s', n) && s'.pushed == s.pushed
  {
    var e1, d := WholePop(s, |Queue(s)|);
    var k := Apply(d, PopReset);
    var e2;
    e2, s' := WholePop(k, n);
    Chain(d, PopReset, k, e2, s');
    RunConcat(s, e1, d, [PopReset] + e2, s');
    es := e1 + ([PopReset] + e2);
  }

  lemma SilentConcat(a: seq<Event>, b: seq<Event>)
    requires NoPush(a) && NoPush(b) && PopsOf(a, {}) && PopsOf(b, {})
    ensures NoPush(a + (b + ([PushPublish] + []))) && PopsOf(a + (b + ([PushPublish] + [])), {})
  {
  }

  /** The first of the two writes. */
  lemma PublishInWindow(c: State)
    requires Inv(c) && Enabled(c, PushPublish) && LandsExactly(c, c.producer.data) && c.consumer.CIdle?
    ensures InWindow(Apply(c, PushPublish))
  {
    StepInv(c, PushPublish);
  }

  /** A push that lands exactly leads into that window, whatever the consumer is at. */
  lemma ReachWindow(s: State, data: seq<byte>) returns (es: seq<Event>, w: State)
    requires AboutToLand(s, data)
    ensures Run(s, [PushStart(data)] + es, w) && NoPush(es) && PopsOf(es, {})
    ensures InWindow(w) && PushedOnly(s, data, w)
  {
    var a := Apply(s, PushStart(data));
    StepInv(s, PushStart(data));
    var e1, b := FinishPop(a);
    var e2, c := FinishCopy(b);
    w := Apply(c, PushPublish);
    PublishInWindow(c);
    assert |b.popped| == |s.popped| ==> b.popped == s.popped;
    hide Inv, InWindow, NoPush, PopsOf;
    assert NoPush(e1 + (e2 + ([PushPublish] + []))) && PopsOf(e1 + (e2 + ([PushPublish] + [])), {}) by {
      SilentConcat(e1, e2);
    }
    assert Run(w, [], w);
    Chain(c, PushPublish, w, [], w);
    RunConcat(b, e2, c, [PushPublish] + [], w);
    RunConcat(a, e1, b, e2 + ([PushPublish] + []), w);
    es := e1 + (e2 + ([PushPublish] + []));
    Chain(s, PushStart(data), a, es, w);
  }

  /** A push that lands exactly can be overtaken: the consumer ends its pop, empties the queue while tail is
      still one past the last cell, and then finds a full ring of bytes nobody pushed. */
  lemma ExactLandingOverrun(s: State, data: seq<byte>, n: nat) returns (es: seq<Event>, s': State)
    requires AboutToLand(s, data) && 0 < n <= s.size + 1
    ensures Run(s, [PushStart(data)] + es, s') && NoPush(es)
    ensures Overrun(s', n) && s'.pushed == s.pushed + data
    ensures s.consumer.CIdle? && s.popped == s.pushed ==> PopsOf(es, {|data|, n})
  {
    hide Accepts, LandsExactly, Apply, Enabled;
    var e1, w := ReachWindow(s, data);
    var e2;
    e2, s' := OverrunInWindow(w, n);
    RunConcat(s, [PushStart(data)] + e1, w, e2, s');
    es := e1 + e2;
    assert [PushStart(data)] + e1 + e2 == [PushStart(data)] + es;
  }

  lemma Chain(s: State, e: Event, m: State, es: seq<Event>, s': State)
    requires Enabled(s, e) && m == Apply(s, e) && Run(m, es, s')
    ensures Run(s, [e] + es, s')
  {
    assert ([e] + es)[1..] == es;
  }

  /** The run goes on from an accepted push of `data` without a further push. */
  ghost predicate AfterPush(s: State, data: seq<byte>, es: seq<Event>, s': State) {
    NoPush(es) && Run(s, [PushStart(data)] + es, s')
  }

  lemma {:induction false} NoPushIsInexact(s: State, es: seq<Event>)
    requires NoPush(es)
    ensures NoExactLanding(s, es)
    decreases |es|
  {
    if es != [] && Enabled(s, es[0]) {
      NoPushIsInexact(Apply(s, es[0]), es[1..]);
    }
  }

  /** The queue is safe after an accepted push, in every continuation up to the next push and whatever the
      consumer is at, exactly when the push does not land exactly. */
  lemma SafeIffInexact(s: State, data: seq<byte>)
    requires Inv(s) && s.producer.PIdle? && Accepts(s, data)
    ensures (forall es, s' :: AfterPush(s, data, es, s') ==> s'.popped <= s'.pushed) <==> !LandsExactly(s, data)
  {
    if LandsExactly(s, data) {
      var es, s' := ExactLandingOverrun(s, data, 1);
      assert AfterPush(s, data, es, s');
    } else {
      forall es, s' | AfterPush(s, data, es, s') ensures s'.popped <= s'.pushed {
        var all := [PushStart(data)] + es;
        assert all[1..] == es;
        NoPushIsInexact(Apply(s, all[0]), es);
        PoppedIsPrefix(s, all, s');
      }
    }
  }
}
