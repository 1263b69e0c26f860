/** The queue of one worker of fthread_pool/fthread_pool.c: an fmbuf that only ever carries whole messages.

    The message size and the number of cells have no common factor, so that a push ends exactly behind the last
    cell once in as many pushes as there are cells, and not before.
 */
module PoolQueue {
  import opened Bytes
  import opened FmbufSpsc
  import opened Modulo

  const MESSAGE_BYTES: nat := 20               // sizeof(th_msg_t), packed
  const QUEUE_BYTES: nat := 1024 * 10 * MESSAGE_BYTES
  const LAP: nat := QUEUE_BYTES + 1

  predicate MessageEvent(e: Event) {
    match e
    case PushStart(data) => |data| == MESSAGE_BYTES
    case PopStart(n) => n == MESSAGE_BYTES
    case _ => true
  }

  predicate Messages(es: seq<Event>) {
    forall i :: 0 <= i < |es| ==> MessageEvent(es[i])
  }

  /** A run of the queue as the pool uses it. */
  ghost predicate MessageRun(cells: seq<byte>, es: seq<Event>, s: State)
    requires cells != []
  {
    Messages(es) && Run(Init(cells), es, s)
  }

  /** The bytes of the messages accepted so far, published or not. */
  function Accepted(s: State): nat {
    |s.pushed| + (if s.producer.PCopy? then |s.producer.data| else 0)
  }

  lemma Multiples(k: nat)
    ensures MESSAGE_BYTES * k % LAP == 0 <==> k % LAP == 0
  {
    if MESSAGE_BYTES * k % LAP == 0 {
      var q := MESSAGE_BYTES * k / LAP;
      var p := k - 10240 * q;
      assert 20 * k == 204801 * q;
      assert q == 20 * p;
      assert k == 204801 * p;
      Remainder(k, p, 0, LAP);
    } else if k % LAP == 0 {
      var r := k / LAP;
      assert k == 204801 * r;
      Remainder(MESSAGE_BYTES * k, 20 * r, 0, LAP);
    }
  }

  /** Only whole messages have been pushed. */
  ghost predicate Whole(s: State) {
    && s.size == QUEUE_BYTES && |s.pushed| % MESSAGE_BYTES == 0
    && (s.producer.PCopy? ==> |s.producer.data| == MESSAGE_BYTES)
  }

  /** The push of a message ends behind the last cell exactly if it is the k-th of the queue with k a multiple
      of the number of cells. */
  lemma ExactLandings(s: State, message: seq<byte>)
    requires Inv(s) && Whole(s) && s.producer.PIdle? && |message| == MESSAGE_BYTES
    ensures LandsExactly(s, message) <==> (|s.pushed| / MESSAGE_BYTES + 1) % LAP == 0
  {
    LandsWhen(s, message);
    Multiples(|s.pushed| / MESSAGE_BYTES + 1);
  }

  lemma StepWhole(s: State, e: Event)
    requires Whole(s) && Enabled(s, e) && MessageEvent(e)
    ensures Whole(Apply(s, e)) && Accepted(s) <= Accepted(Apply(s, e))
  {
  }

  lemma {:induction false} AcceptedGrows(s: State, es: seq<Event>, s': State)
    requires Whole(s) && Run(s, es, s') && Messages(es)
    ensures Accepted(s) <= Accepted(s')
    decreases |es|
  {
    if es != [] {
      StepWhole(s, es[0]);
      AcceptedGrows(Apply(s, es[0]), es[1..], s');
    }
  }

  lemma PushWithinLap(s: State, message: seq<byte>)
    requires Inv(s) && Whole(s) && s.producer.PIdle? && |message| == MESSAGE_BYTES
    requires |s.pushed| + MESSAGE_BYTES < MESSAGE_BYTES * LAP
    ensures !LandsExactly(s, message)
  {
    hide Inv, LandsExactly;
    ExactLandings(s, message);
    assert 0 < |s.pushed| / MESSAGE_BYTES + 1 < LAP;
  }

  lemma StepWithinLap(s: State, e: Event)
    requires Inv(s) && Inexact(s) && Whole(s) && Enabled(s, e) && MessageEvent(e)
    requires Accepted(Apply(s, e)) < MESSAGE_BYTES * LAP
    ensures Inexact(Apply(s, e)) && Inv(Apply(s, e)) && InexactStep(s, e)
  {
    hide Inv, Inexact, LandsExactly, Whole;
    if e.PushStart? && Accepts(s, e.data) {
      PushWithinLap(s, e.data);
    }
    InexactNext(s, e);
  }

  /** As long as fewer messages than cells have been accepted, no push lands exactly. */
  lemma {:induction false} WithinLap(s: State, es: seq<Event>, s': State)
    requires Inv(s) && Inexact(s) && Whole(s) && Run(s, es, s') && Messages(es)
    requires Accepted(s') < MESSAGE_BYTES * LAP
    ensures NoExactLanding(s, es)
    decreases |es|
  {
    hide Inv, Inexact, InexactStep, Whole, Apply, Enabled, Accepted;
    if es != [] {
      StepWhole(s, es[0]);
      AcceptedGrows(Apply(s, es[0]), es[1..], s');
      StepWithinLap(s, es[0]);
      WithinLap(Apply(s, es[0]), es[1..], s');
    }
  }

  // ------------------------------------------------------------------ the 204801st message

  lemma JoinMessages(a: seq<Event>, b: seq<Event>)
    requires Messages(a) && Messages(b)
    ensures Messages(a + b)
  {
  }

  lemma AloneIsMessages(es: seq<Event>)
    requires NoPush(es) && PopsOf(es, {MESSAGE_BYTES})
    ensures Messages(es)
  {
    forall i | 0 <= i < |es| ensures MessageEvent(es[i]) {
      assert !es[i].PushStart?;
      assert es[i].PopStart? ==> es[i].n in {MESSAGE_BYTES};
    }
  }

  /** Nothing is queued and both sides are idle. */
  ghost predicate Rest(s: State, k: nat) {
    && Inv(s) && Whole(s) && s.producer.PIdle? && s.consumer.CIdle?
    && s.popped == s.pushed && |s.pushed| == MESSAGE_BYTES * k
  }

  /** One message goes in. */
  lemma PushMessage(s: State, k: nat, message: seq<byte>) returns (es: seq<Event>, s': State)
    requires Rest(s, k) && |message| == MESSAGE_BYTES
    ensures Run(s, es, s') && Messages(es) && Inv(s') && s'.producer.PIdle? && s'.consumer.CIdle? && s'.size == s.size
    ensures s'.popped == s.popped && |s'.pushed| == |s.pushed| + MESSAGE_BYTES
  {
    var m := Apply(s, PushStart(message));
    assert m.producer.PCopy?;
    StepInv(s, PushStart(message));
    var rest;
    rest, s' := FinishPush(m);
    Chain(s, PushStart(message), m, rest, s');
    es := [PushStart(message)] + rest;
    AloneIsMessages(rest);
    JoinMessages([PushStart(message)], rest);
  }

  /** And it comes out. */
  lemma PopMessage(s: State, k: nat) returns (es: seq<Event>, s': State)
    requires Inv(s) && s.producer.PIdle? && s.consumer.CIdle? && s.size == QUEUE_BYTES
    requires |s.pushed| == |s.popped| + MESSAGE_BYTES == MESSAGE_BYTES * (k + 1)
    ensures Run(s, es, s') && Messages(es) && Rest(s', k + 1)
  {
    var m := Apply(s, PopStart(MESSAGE_BYTES));
    assert m.consumer.CCopy?;
    StepInv(s, PopStart(MESSAGE_BYTES));
    var rest;
    rest, s' := FinishPop(m);
    Chain(s, PopStart(MESSAGE_BYTES), m, rest, s');
    es := [PopStart(MESSAGE_BYTES)] + rest;
    AloneIsMessages(rest);
    JoinMessages([PopStart(MESSAGE_BYTES)], rest);
  }

  /** One message goes through. */
  lemma OneRound(r: State, k: nat) returns (es: seq<Event>, s: State)
    requires Rest(r, k)
    ensures Run(r, es, s) && Messages(es) && Rest(s, k + 1)
  {
    var message: seq<byte> := seq(MESSAGE_BYTES, i => 0);
    var e1, m := PushMessage(r, k, message);
    var e2;
    e2, s := PopMessage(m, k);
    hide Inv, Run, Messages, Rest;
    RunConcat(r, e1, m, e2, s);
    es := e1 + e2;
    JoinMessages(e1, e2);
  }

  /** Any number of messages can go through one by one. */
  lemma {:induction false} Rounds(cells: seq<byte>, k: nat) returns (es: seq<Event>, s: State)
    requires |cells| == LAP
    ensures MessageRun(cells, es, s) && Rest(s, k)
  {
    if k == 0 {
      InitInv(cells);
      es, s := [], Init(cells);
    } else {
      var e0, r := Rounds(cells, k - 1);
      hide Rest, Messages, Run;
      var e1;
      e1, s := OneRound(r, k - 1);
      RunConcat(Init(cells), e0, r, e1, s);
      es := e0 + e1;
      JoinMessages(e0, e1);
    }
  }

  /** A run in which the worker pops a message nobody posted, right after the 204801st. */
  lemma LapOverrun(cells: seq<byte>) returns (es: seq<Event>, s: State)
    requires |cells| == LAP
    ensures MessageRun(cells, es, s) && Accepted(s) == MESSAGE_BYTES * LAP
    ensures Overrun(s, MESSAGE_BYTES)
  {
    var e0, r := Rounds(cells, LAP - 1);
    var message: seq<byte> := seq(MESSAGE_BYTES, i => 0);
    ExactLandings(r, message);
    var e1;
    e1, s := ExactLandingOverrun(r, message, MESSAGE_BYTES);
    AloneIsMessages(e1);
    JoinMessages([PushStart(message)], e1);
    RunConcat(Init(cells), e0, r, [PushStart(message)] + e1, s);
    es := e0 + ([PushStart(message)] + e1);
    JoinMessages(e0, [PushStart(message)] + e1);
  }

  /** The queue of a worker is safe, in every interleaving, exactly as long as fewer messages than it has cells
      have been accepted: 204800 of them. */
  lemma SafeWithinLap(cells: seq<byte>, k: nat)
    requires |cells| == LAP
    ensures (forall es, s :: MessageRun(cells, es, s) && Accepted(s) <= MESSAGE_BYTES * k ==> s.popped <= s.pushed)
              <==> k < LAP
  {
    if k < LAP {
      forall es, s | MessageRun(cells, es, s) && Accepted(s) <= MESSAGE_BYTES * k ensures s.popped <= s.pushed {
        InitInv(cells);
        WithinLap(Init(cells), es, s);
        PoppedIsPrefix(Init(cells), es, s);
      }
    } else {
      var es, s := LapOverrun(cells);
      assert MessageRun(cells, es, s);
    }
  }
}
