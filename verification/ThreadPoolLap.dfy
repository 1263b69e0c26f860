/** How far the promises of the thread pool reach: to the 204800th message of each worker, and no further. */
module ThreadPoolLap {
  import opened PoolQueue
  import opened ThreadPool

  /** A worker in its pop loop with nothing to do, or one that has not started yet. */
  ghost predicate Ready<T>(w: Worker<T>) {
    && w.queue == [] && (w.pc.Entering? || w.pc.Popping?)
    && (w.posted != [] ==> w.pc.Popping?)
  }

  ghost predicate AllReady<T>(s: State<T>) {
    && Inv(s) && s.poster.Idle? && s.current < |s.workers|
    && forall i :: 0 <= i < |s.workers| ==> Ready(s.workers[i])
  }

  lemma Chain<T>(s: State<T>, e: Event<T>, es: seq<Event<T>>, s': State<T>) returns (all: seq<Event<T>>)
    requires Enabled(s, e) && Run(Apply(s, e), es, s')
    ensures all == [e] + es && Run(s, all, s')
  {
    all := [e] + es;
    assert all[1..] == es;
  }

  lemma {:induction false} RunConcat<T>(s: State<T>, es: seq<Event<T>>, m: State<T>, es': seq<Event<T>>, s': State<T>)
    requires Run(s, es, m) && Run(m, es', s')
    ensures Run(s, es + es', s')
    decreases |es|
  {
    if es == [] {
      assert es + es' == es';
    } else {
      RunConcat(Apply(s, es[0]), es[1..], m, es', s');
      assert (es + es')[1..] == es[1..] + es';
    }
  }

  /** A post to a ready worker, as far as the signal. */
  lemma PostSignal<T>(s: State<T>, task: T) returns (es: seq<Event<T>>, s': State<T>)
    requires AllReady(s)
    ensures Run(s, es, s')
    ensures var slot := NextSlot(s); s' == s.(current := slot, attempts := s.attempts + 1,
              workers := s.workers[slot := Signalled(Pushed(s.workers[slot], task))])
  {
    hide Inv, Lands;
    var slot := NextSlot(s);
    assert Ready(s.workers[slot]);
    var a := Apply(s, Post(task));
    var b := if a.poster.Resetting? then Apply(a, Reset) else a;
    s' := Apply(b, Signal);
    assert Run(s', [], s');
    es := Chain(b, Signal, [], s');
    if a.poster.Resetting? {
      es := Chain(a, Reset, es, s');
    }
    es := Chain(s, Post(task), es, s');
  }

  /** A worker with one signalled task runs it and goes on popping. */
  lemma RunOne<T>(s: State<T>, slot: nat, task: T) returns (es: seq<Event<T>>, s': State<T>)
    requires slot < |s.workers| && s.poster.Idle?
    requires var w := s.workers[slot];
      w.queue == [Task(task)] && w.count > 0 && (w.pc.Entering? || w.pc.Popping?)
    ensures Run(s, es, s')
    ensures |s'.workers| == |s.workers| && s' == s.(workers := s'.workers)
    ensures forall j :: 0 <= j < |s.workers| && j != slot ==> s'.workers[j] == s.workers[j]
    ensures var w := s'.workers[slot]; w.queue == [] && w.pc.Popping? && w.posted == s.workers[slot].posted
  {
    var a := if s.workers[slot].pc.Entering? then Apply(s, Of(slot, Test)) else s;
    var b := Apply(a, Of(slot, Pop));
    s' := Apply(b, Of(slot, Finish));
    assert Run(s', [], s');
    es := Chain(b, Of(slot, Finish), [], s');
    es := Chain(a, Of(slot, Pop), es, s');
    if s.workers[slot].pc.Entering? {
      es := Chain(s, Of(slot, Test), es, s');
    }
  }

  /** One post, taken care of at once. */
  lemma Serve<T>(s: State<T>, task: T) returns (es: seq<Event<T>>, s': State<T>)
    requires AllReady(s)
    ensures Run(s, es, s') && AllReady(s') && |s'.workers| == |s.workers| && s'.current == NextSlot(s)
    ensures forall j :: 0 <= j < |s.workers| && j != NextSlot(s) ==> s'.workers[j] == s.workers[j]
    ensures |s'.workers[NextSlot(s)].posted| == |s.workers[NextSlot(s)].posted| + 1
  {
    hide Inv;
    var slot := NextSlot(s);
    assert Ready(s.workers[slot]);
    var e1, m := PostSignal(s, task);
    var e2;
    e2, s' := RunOne(m, slot, task);
    RunConcat(s, e1, m, e2, s');
    es := e1 + e2;
    RunInv(s, es, s');
    forall i | 0 <= i < |s'.workers| ensures Ready(s'.workers[i]) {
      assert Ready(s.workers[i]);
    }
  }

  /** How many posts until slot `i` is next. */
  function Distance<T>(s: State<T>, i: nat): nat
    requires i < |s.workers| && s.current < |s.workers|
  {
    if NextSlot(s) <= i then i - NextSlot(s) else i + |s.workers| - NextSlot(s)
  }

  /** Posts go round until slot `i` has had `k` messages and is next again. */
  lemma {:induction false} Until<T>(s: State<T>, i: nat, k: nat, task: T) returns (es: seq<Event<T>>, s': State<T>)
    requires AllReady(s) && i < |s.workers| && |s.workers[i].posted| <= k
    ensures Run(s, es, s') && AllReady(s') && |s'.workers| == |s.workers|
    ensures |s'.workers[i].posted| == k && NextSlot(s') == i
    decreases k - |s.workers[i].posted|, Distance(s, i)
  {
    hide Inv, Ready;
    if |s.workers[i].posted| == k && NextSlot(s) == i {
      es, s' := [], s;
    } else {
      var e1, m := Serve(s, task);
      var e2;
      e2, s' := Until(m, i, k, task);
      RunConcat(s, e1, m, e2, s');
      es := e1 + e2;
    }
  }

  /** At its 204801st message a worker can be misled: it empties its queue before the poster resets the tail. */
  lemma Mislead<T>(s: State<T>, i: nat, task: T) returns (es: seq<Event<T>>, s': State<T>)
    requires AllReady(s) && i < |s.workers| && |s.workers[i].posted| == LAP - 1 && NextSlot(s) == i
    ensures Run(s, es, s') && |s'.workers| == |s.workers|
    ensures s'.workers[i].pc.Misled? && |s'.workers[i].posted| == LAP
  {
    hide Inv;
    assert Ready(s.workers[i]);
    var a := Apply(s, Post(task));
    assert a.poster == Resetting(i);
    var b := Apply(a, Of(i, Pop));
    var c := Apply(b, Of(i, Finish));
    s' := Apply(c, Of(i, Pop));
    assert Run(s', [], s');
    es := Chain(c, Of(i, Pop), [], s');
    es := Chain(b, Of(i, Finish), es, s');
    es := Chain(a, Of(i, Pop), es, s');
    es := Chain(s, Post(task), es, s');
  }

  /** Some interleaving leads from the fresh pool to `s`. */
  ghost predicate Reached<T>(n: nat, es: seq<Event<T>>, s: State<T>)
    requires n > 0
  {
    Run(Init(n), es, s) && |s.workers| == n
  }

  lemma MisledIsReached<T>(n: nat, i: nat, task: T) returns (es: seq<Event<T>>, s: State<T>)
    requires i < n
    ensures Reached(n, es, s) && s.workers[i].pc.Misled? && |s.workers[i].posted| == LAP
  {
    hide Inv, Ready, Run;
    var e1, m := Until(Fresh<T>(n), i, LAP - 1, task);
    var e2;
    e2, s := Mislead(m, i, task);
    RunConcat(Init(n), e1, m, e2, s);
    es := e1 + e2;
  }

  function Fresh<T>(n: nat): (s: State<T>)
    requires n > 0
    ensures s == Init(n) && AllReady(s) && |s.workers| == n && forall i :: 0 <= i < n ==> s.workers[i].posted == []
  {
    InitInv<T>(n);
    Init(n)
  }

  /** In a pool of any size a worker is out of danger, in every interleaving, exactly as long as fewer than
      204801 messages have been posted to it. */
  lemma SafeIffWithinLap<T(!new)>(n: nat, i: nat, k: nat, task: T)
    requires i < n
    ensures (forall es: seq<Event<T>>, s: State<T> ::
               Reached(n, es, s) && |s.workers[i].posted| <= k ==> !s.workers[i].pc.Misled?)
              <==> k < LAP
  {
    hide Run;
    if k < LAP {
      forall es: seq<Event<T>>, s: State<T> | Reached(n, es, s) && |s.workers[i].posted| <= k
        ensures !s.workers[i].pc.Misled?
      {
        RunsInPostingOrder(n, es, s, i);
      }
    } else {
      var es, s := MisledIsReached(n, i, task);
      assert Reached(n, es, s);
    }
  }
}
