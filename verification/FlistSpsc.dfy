/** flist/flist.c as a queue between one producer and one consumer that do not lock.

    Every read or write of a shared pointer is a step of its own, nodes live at addresses, and freed addresses
    may be handed out again.  An access to an address that is not allocated is a fault.
 */
module FlistSpsc {
  import opened Options

  type Address = nat

  const NULL: Address := 0

  datatype Cell<T> = Cell(data: Option<T>, pre: Address, next: Address)

  /** Where the producer is in `flist_push`, and with which new node. */
  datatype Producer<T> = PIdle
                       | PAllocated(node: Address, data: T)
                       | PFilled(node: Address, data: T)
                       | PReady(node: Address, data: T)   // knows its predecessor
                       | PLinked(node: Address, data: T)  // hangs behind the tail

  /** Where the consumer is in `flist_pop`; `gone` is the node its head has just left. */
  datatype Consumer = CIdle | CNonEmpty | CAdvanced(gone: Address) | CFreeing(gone: Address) | CFreed

  /** `nodes` are the nodes from head to tail, `pushed` and `popped` what went in and out; they are history. */
  datatype State<T> = State(
    heap: map<Address, Cell<T>>, head: Address, tail: Address,
    producer: Producer<T>, consumer: Consumer, fault: bool,
    nodes: seq<Address>, pushed: seq<T>, popped: seq<T>)

  datatype Event<T> = Allocate(node: Address, data: T) | Fill | SetPre | LinkBehindTail | PublishTail
                    | CheckEmpty | AdvanceHead | ReadPre | Free | ReadData

  predicate Enabled<T>(s: State<T>, e: Event<T>) {
    && !s.fault
    && match e
       case Allocate(node, _) => s.producer.PIdle? && node != NULL && node !in s.heap
       case Fill => s.producer.PAllocated?
       case SetPre => s.producer.PFilled?
       case LinkBehindTail => s.producer.PReady?
       case PublishTail => s.producer.PLinked?
       case CheckEmpty => s.consumer.CIdle?
       case AdvanceHead => s.consumer.CNonEmpty?
       case ReadPre => s.consumer.CAdvanced?
       case Free => s.consumer.CFreeing?
       case ReadData => s.consumer.CFreed?
  }

  /** The address a step reads, writes or frees, if any. */
  function Touched<T>(s: State<T>, e: Event<T>): Option<Address>
    requires Enabled(s, e)
  {
    match e
    case Allocate(_, _) => None
    case Fill => Some(s.producer.node)
    case SetPre => Some(s.producer.node)
    case LinkBehindTail => Some(s.tail)
    case PublishTail => None
    case CheckEmpty => None
    case AdvanceHead => Some(s.head)
    case ReadPre => Some(s.head)
    case Free => Some(s.consumer.gone)
    case ReadData => Some(s.head)
  }

  predicate Safe<T>(s: State<T>, e: Event<T>)
    requires Enabled(s, e)
  {
    Touched(s, e).Some? ==> Touched(s, e).value in s.heap
  }

  function Apply<T>(s: State<T>, e: Event<T>): State<T>
    requires Enabled(s, e)
  {
    if !Safe(s, e) then s.(fault := true)
    else
      match e
      case Allocate(node, data) =>
        s.(heap := s.heap[node := Cell(None, NULL, NULL)], producer := PAllocated(node, data))
      case Fill =>
        var p := s.producer;
        s.(heap := s.heap[p.node := s.heap[p.node].(data := Some(p.data), next := NULL)],
           producer := PFilled(p.node, p.data))
      case SetPre =>
        var p := s.producer;
        s.(heap := s.heap[p.node := s.heap[p.node].(pre := s.tail)], producer := PReady(p.node, p.data))
      case LinkBehindTail =>
        var p := s.producer;
        s.(heap := s.heap[s.tail := s.heap[s.tail].(next := p.node)], producer := PLinked(p.node, p.data))
      case PublishTail =>
        s.(tail := s.producer.node, producer := PIdle,
           nodes := s.nodes + [s.producer.node], pushed := s.pushed + [s.producer.data])
      case CheckEmpty => s.(consumer := if s.head == s.tail then CIdle else CNonEmpty)
      case AdvanceHead =>
        s.(head := s.heap[s.head].next, consumer := CAdvanced(s.head),
           nodes := if s.nodes == [] then [] else s.nodes[1..])
      case ReadPre => s.(consumer := CFreeing(s.heap[s.head].pre))
      case Free => s.(heap := s.heap - {s.consumer.gone}, consumer := CFreed)
      case ReadData =>
        var data := s.heap[s.head].data;
        s.(consumer := CIdle, popped := if data.Some? then s.popped + [data.value] else s.popped)
  }

  ghost predicate Run<T>(s: State<T>, es: seq<Event<T>>, s': State<T>)
    decreases |es|
  {
    if es == [] then s == s'
    else Enabled(s, es[0]) && Run(Apply(s, es[0]), es[1..], s')
  }

  function Init<T>(dummy: Address): State<T>
    requires dummy != NULL
  {
    State(map[dummy := Cell(None, NULL, NULL)], dummy, dummy, PIdle, CIdle, false, [dummy], [], [])
  }

  // ------------------------------------------------------------------ invariant

  /** The node the producer owns, or NULL. */
  function Pending<T>(s: State<T>): Address { if s.producer.PIdle? then NULL else s.producer.node }

  /** The node the consumer is about to free, or NULL. */
  function Gone<T>(s: State<T>): Address {
    if s.consumer.CAdvanced? || s.consumer.CFreeing? then s.consumer.gone else NULL
  }

  /** The head has moved on to a node whose data is not yet returned. */
  predicate Owed<T>(s: State<T>) { s.consumer.CAdvanced? || s.consumer.CFreeing? || s.consumer.CFreed? }

  ghost predicate Distinct(ns: seq<Address>) {
    forall i, j :: 0 <= i < j < |ns| ==> ns[i] != ns[j]
  }

  /** What holds of the `i`-th node from the head: it is allocated and nobody's private node, its links fit, and
      it carries its element.  The pre link of the head is not counted on, nor the data of the dummy. */
  ghost predicate NodeInv<T>(s: State<T>, i: nat)
    requires i < |s.nodes| <= |s.pushed| + 1
  {
    var a, at := s.nodes[i], |s.pushed| - |s.nodes| + i;
    && a != NULL && a in s.heap && a != Pending(s) && a != Gone(s)
    && s.heap[a].next == (if i + 1 < |s.nodes| then s.nodes[i + 1]
                          else if s.producer.PLinked? then Pending(s) else NULL)
    && (i > 0 ==> s.heap[a].pre == s.nodes[i - 1])
    && (i > 0 || Owed(s) ==> at >= 0 && s.heap[a].data == Some(s.pushed[at]))
  }

  ghost predicate ProducerInv<T>(s: State<T>) {
    var p := s.producer;
    && (!p.PIdle? ==> p.node != NULL && p.node in s.heap && p.node != Gone(s))
    && (p.PFilled? || p.PReady? || p.PLinked? ==> s.heap[p.node].data == Some(p.data) && s.heap[p.node].next == NULL)
    && (p.PReady? || p.PLinked? ==> s.heap[p.node].pre == s.tail)
  }

  ghost predicate ConsumerInv<T>(s: State<T>) {
    var c := s.consumer;
    && (c.CNonEmpty? ==> |s.nodes| > 1)
    && (c.CAdvanced? || c.CFreeing? ==> c.gone != NULL && c.gone in s.heap)
    && (c.CAdvanced? ==> s.head in s.heap && s.heap[s.head].pre == c.gone)
  }

  /** How many nodes are in private hands. */
  function Private<T>(s: State<T>): nat {
    (if s.producer.PIdle? then 0 else 1) + (if s.consumer.CAdvanced? || s.consumer.CFreeing? then 1 else 0)
  }

  ghost predicate Inv<T>(s: State<T>) {
    && !s.fault
    && s.nodes != [] && s.head == s.nodes[0] && s.tail == s.nodes[|s.nodes| - 1]
    && s.popped <= s.pushed
    && |s.pushed| == |s.popped| + (if Owed(s) then 1 else 0) + |s.nodes| - 1
    && NULL !in s.heap && |s.heap| == |s.nodes| + Private(s)
    && Distinct(s.nodes)
    && ProducerInv(s) && ConsumerInv(s)
    && (forall i :: 0 <= i < |s.nodes| ==> NodeInv(s, i))
  }

  lemma NoFault<T>(s: State<T>, e: Event<T>)
    requires Inv(s) && Enabled(s, e)
    ensures Safe(s, e)
  {
    assert NodeInv(s, 0) && NodeInv(s, |s.nodes| - 1);
  }

  lemma Removed<T>(heap: map<Address, Cell<T>>, a: Address)
    requires a in heap
    ensures |heap - {a}| == |heap| - 1
  {
    assert (heap - {a}).Keys == heap.Keys - {a};
  }

  lemma PublishInv<T>(s: State<T>)
    requires Inv(s) && Enabled(s, PublishTail)
    ensures Inv(Apply(s, PublishTail))
  {
    var t := Apply(s, PublishTail);
    forall i | 0 <= i < |t.nodes| ensures NodeInv(t, i) && (i < |s.nodes| ==> t.nodes[i] != s.producer.node) {
      assert i < |s.nodes| ==> NodeInv(s, i);
    }
  }

  lemma AdvanceInv<T>(s: State<T>)
    requires Inv(s) && Enabled(s, AdvanceHead)
    ensures Inv(Apply(s, AdvanceHead))
  {
    var t := Apply(s, AdvanceHead);
    assert NodeInv(s, 0) && NodeInv(s, 1);
    forall i | 0 <= i < |t.nodes| ensures NodeInv(t, i) {
      assert NodeInv(s, i + 1);
    }
  }

  lemma ProducerStepInv<T>(s: State<T>, e: Event<T>)
    requires Inv(s) && Enabled(s, e) && (e.Allocate? || e.Fill? || e.SetPre? || e.LinkBehindTail?)
    ensures Inv(Apply(s, e))
  {
    var t := Apply(s, e);
    NoFault(s, e);
    assert NodeInv(s, 0) && NodeInv(s, |s.nodes| - 1);
    forall i | 0 <= i < |t.nodes| ensures NodeInv(t, i) {
      assert NodeInv(s, i);
    }
  }

  lemma ConsumerStepInv<T>(s: State<T>, e: Event<T>)
    requires Inv(s) && Enabled(s, e) && (e.CheckEmpty? || e.ReadPre? || e.Free? || e.ReadData?)
    ensures Inv(Apply(s, e))
  {
    var t := Apply(s, e);
    NoFault(s, e);
    assert NodeInv(s, 0);
    if e.Free? {
      Removed(s.heap, s.consumer.gone);
    }
    forall i | 0 <= i < |t.nodes| ensures NodeInv(t, i) {
      assert NodeInv(s, i);
    }
  }

  lemma StepInv<T>(s: State<T>, e: Event<T>)
    requires Inv(s) && Enabled(s, e)
    ensures Inv(Apply(s, e))
  {
    match e
    case Allocate(_, _) => ProducerStepInv(s, e);
    case Fill => ProducerStepInv(s, e);
    case SetPre => ProducerStepInv(s, e);
    case LinkBehindTail => ProducerStepInv(s, e);
    case PublishTail => PublishInv(s);
    case CheckEmpty => ConsumerStepInv(s, e);
    case AdvanceHead => AdvanceInv(s);
    case ReadPre => ConsumerStepInv(s, e);
    case Free => ConsumerStepInv(s, e);
    case ReadData => ConsumerStepInv(s, e);
  }

  // ------------------------------------------------------------------ guarantees

  lemma {:induction false} RunInv<T>(s: State<T>, es: seq<Event<T>>, s': State<T>)
    requires Inv(s) && Run(s, es, s')
    ensures Inv(s')
    decreases |es|
  {
    if es != [] {
      StepInv(s, es[0]);
      RunInv(Apply(s, es[0]), es[1..], s');
    }
  }

  /** In every interleaving the data come out in the order they went in, none lost and none twice, and no step
      touches freed memory.  The list looks empty exactly when everything pushed has been popped. */
  lemma QueueIsFifo<T>(dummy: Address, es: seq<Event<T>>, s: State<T>)
    requires dummy != NULL && Run(Init(dummy), es, s)
    ensures !s.fault
    ensures s.popped <= s.pushed
    ensures s.consumer.CIdle? ==> (s.head == s.tail <==> s.popped == s.pushed)
  {
    RunInv(Init(dummy), es, s);
  }

  // ------------------------------------------------------------------ progress

  predicate OfConsumer<T>(e: Event<T>) {
    e.CheckEmpty? || e.AdvanceHead? || e.ReadPre? || e.Free? || e.ReadData?
  }

  /** How many of the steps are the consumer's, or else the producer's. */
  function Count<T>(es: seq<Event<T>>, consumer: bool): nat {
    if es == [] then 0 else (if OfConsumer(es[0]) == consumer then 1 else 0) + Count(es[1..], consumer)
  }

  /** The steps a pop has left once it has found an element, and the next of them. */
  function PopLeft(c: Consumer): nat {
    match c
    case CIdle => 0
    case CNonEmpty => 4
    case CAdvanced(_) => 3
    case CFreeing(_) => 2
    case CFreed => 1
  }

  function NextOfPop<T>(c: Consumer): Event<T>
    requires !c.CIdle?
  {
    match c
    case CNonEmpty => AdvanceHead
    case CAdvanced(_) => ReadPre
    case CFreeing(_) => Free
    case CFreed => ReadData
  }

  /** The steps a push has left, and the next of them. */
  function PushLeft<T>(p: Producer<T>): nat {
    match p
    case PIdle => 0
    case PAllocated(_, _) => 4
    case PFilled(_, _) => 3
    case PReady(_, _) => 2
    case PLinked(_, _) => 1
  }

  function NextOfPush<T>(p: Producer<T>): Event<T>
    requires !p.PIdle?
  {
    match p
    case PAllocated(_, _) => Fill
    case PFilled(_, _) => SetPre
    case PReady(_, _) => LinkBehindTail
    case PLinked(_, _) => PublishTail
  }

  /** Every step of a pop but the last leaves what was popped; the last adds the oldest element that was not. */
  lemma PopStep<T>(s: State<T>, e: Event<T>)
    requires Inv(s) && Enabled(s, e) && !e.CheckEmpty?
    ensures var t := Apply(s, e);
      && s.pushed <= t.pushed
      && PopLeft(t.consumer) + (if OfConsumer(e) then 1 else 0) == PopLeft(s.consumer)
      && t.popped == if e.ReadData? then s.popped + [s.pushed[|s.popped|]] else s.popped
  {
    NoFault(s, e);
    assert NodeInv(s, 0);
  }

  lemma PopCanGoOn<T>(s: State<T>)
    requires Inv(s) && !s.consumer.CIdle?
    ensures Enabled(s, NextOfPop(s.consumer)) && |s.popped| < |s.pushed|
  {
  }

  /** A pop under way is always able to go on; after its own steps, with any steps of the producer in between,
      it has returned the oldest element not yet popped. */
  lemma {:induction false} PopGoesOn<T>(s: State<T>, es: seq<Event<T>>, s': State<T>)
    requires Inv(s) && Run(s, es, s') && CheckEmpty !in es
    ensures s.pushed <= s'.pushed && PopLeft(s'.consumer) + Count(es, true) == PopLeft(s.consumer)
    ensures !s.consumer.CIdle? ==> |s.popped| < |s.pushed|
    ensures !s'.consumer.CIdle? ==> Enabled(s', NextOfPop(s'.consumer))
    ensures s'.popped == if s.consumer.CIdle? || !s'.consumer.CIdle? then s.popped
                         else s.popped + [s.pushed[|s.popped|]]
    decreases |es|
  {
    if !s.consumer.CIdle? {
      PopCanGoOn(s);
    }
    if es != [] {
      PopStep(s, es[0]);
      StepInv(s, es[0]);
      hide Inv, Apply;
      PopGoesOn(Apply(s, es[0]), es[1..], s');
    }
  }

  /** The same of a push: it is never held up, and after its own steps its element has gone in. */
  lemma {:induction false} PushGoesOn<T>(s: State<T>, es: seq<Event<T>>, s': State<T>)
    requires Inv(s) && Run(s, es, s') && forall i :: 0 <= i < |es| ==> !es[i].Allocate?
    ensures PushLeft(s'.producer) + Count(es, false) == PushLeft(s.producer)
    ensures !s'.producer.PIdle? ==> Enabled(s', NextOfPush(s'.producer))
    ensures s'.pushed == if s.producer.PIdle? || !s'.producer.PIdle? then s.pushed else s.pushed + [s.producer.data]
    decreases |es|
  {
    if es != [] {
      NoFault(s, es[0]);
      StepInv(s, es[0]);
      PushGoesOn(Apply(s, es[0]), es[1..], s');
    }
  }

  /** In every interleaving a pop that is begun finds an element exactly if one is there, and then returns the
      next one after four more steps of its own, whatever the producer does in between; an empty list is left
      alone. */
  lemma PopReturnsNext<T>(dummy: Address, es: seq<Event<T>>, s: State<T>, rest: seq<Event<T>>, s': State<T>)
    requires dummy != NULL && Run(Init(dummy), es, s) && s.consumer.CIdle?
    requires Run(s, [CheckEmpty] + rest, s') && CheckEmpty !in rest
    ensures s.popped == s.pushed ==> s'.consumer.CIdle? && s'.popped == s.popped && Count(rest, true) == 0
    ensures s.popped != s.pushed ==>
              if Count(rest, true) < 4 then
                s'.popped == s.popped && !s'.consumer.CIdle? && Enabled(s', NextOfPop(s'.consumer))
              else
                Count(rest, true) == 4 && s'.consumer.CIdle? && |s.popped| < |s.pushed|
                && s'.popped == s.popped + [s.pushed[|s.popped|]]
  {
    RunInv(Init(dummy), es, s);
    QueueIsFifo(dummy, es, s);
    var all: seq<Event<T>> := [CheckEmpty] + rest;
    assert all[0] == CheckEmpty && all[1..] == rest;
    StepInv(s, CheckEmpty);
    PopGoesOn(Apply(s, CheckEmpty), rest, s');
  }

  /** Nothing leaks: between operations one node more is allocated than elements are queued. */
  lemma NothingLeaks<T>(dummy: Address, es: seq<Event<T>>, s: State<T>)
    requires dummy != NULL && Run(Init(dummy), es, s) && s.producer.PIdle? && s.consumer.CIdle?
    ensures |s.heap| == 1 + |s.pushed| - |s.popped|
  {
    RunInv(Init(dummy), es, s);
  }

  /** Where `n` next links lead from an address. */
  function Follow<T>(heap: map<Address, Cell<T>>, from: Address, n: nat): Address
    decreases n
  {
    if n == 0 || from !in heap then from else Follow(heap, heap[from].next, n - 1)
  }

  /** From a node of the list the links lead on inside the list, then to the producer's linked node or NULL. */
  lemma {:induction false} FollowStaysInside<T>(s: State<T>, i: nat, n: nat)
    requires Inv(s) && i < |s.nodes|
    ensures var a := Follow(s.heap, s.nodes[i], n); a in s.nodes || a == NULL || a == Pending(s)
    decreases n
  {
    if n > 0 {
      assert NodeInv(s, i);
      if i + 1 < |s.nodes| {
        FollowStaysInside(s, i + 1, n - 1);
      } else if s.producer.PLinked? && n > 1 {
        assert Follow(s.heap, s.producer.node, n - 1) == Follow(s.heap, NULL, n - 2);
      }
    }
  }

  /** The node a pop frees cannot be reached any more from the head or from the tail. */
  lemma FreedIsUnreachable<T>(s: State<T>, n: nat)
    requires Inv(s) && Enabled(s, Free)
    ensures Follow(s.heap, s.head, n) != s.consumer.gone
    ensures Follow(s.heap, s.tail, n) != s.consumer.gone
  {
    forall i | 0 <= i < |s.nodes| ensures s.nodes[i] != s.consumer.gone {
      assert NodeInv(s, i);
    }
    FollowStaysInside(s, 0, n);
    FollowStaysInside(s, |s.nodes| - 1, n);
  }
}
