/** fthread_pool/fthread_pool.c over flock/flock.c: one poster, any number of workers.

    Each worker sleeps on a counted condition of its own.  A post pushes a message to the next worker's queue
    and then signals; the condition itself is signalled only when the count is 0.  What a thread does between
    lock and unlock is one step, and so is a pop.  A push is one step too unless it ends exactly behind the last
    cell of the byte ring; then its tail is written twice, and a worker that empties the queue in between
    pops bytes nobody posted (PoolQueue says why and when).
 */
module ThreadPool {
  import opened Modulo
  import opened Options
  import opened PoolQueue

  datatype Message<T> = Task(task: T) | Release

  /** Where a worker is: about to test the count, asleep on the condition, woken but not yet back under the
      lock, in its pop loop, running a task, gone, or misled by bytes nobody posted; what a misled worker does
      is not modelled. */
  datatype Pc<T> = Entering | Asleep | Woken | Popping | Running(task: T) | Exited | Misled

  /** `posted` and `executed` are history. */
  datatype Worker<T> = Worker(pc: Pc<T>, count: nat, queue: seq<Message<T>>, posted: seq<T>, executed: seq<T>)

  /** Between two posts, between the two writes of the tail, or between push and signal. */
  datatype Poster = Idle | Resetting(slot: nat) | Signalling(slot: nat)

  /** `attempts` counts the posts, refused ones included; it is history. */
  datatype State<T> = State(workers: seq<Worker<T>>, current: nat, poster: Poster, attempts: nat)

  datatype Step = Test | SpuriousWake | Pop | Finish

  datatype Event<T> = Post(task: T) | Reset | Signal | Of(slot: nat, step: Step)

  /** The queue has no room for one more message. */
  predicate Full<T>(w: Worker<T>) {
    QUEUE_BYTES - MESSAGE_BYTES * |w.queue| < MESSAGE_BYTES
  }

  /** The next message pushed ends exactly behind the last cell (PoolQueue.ExactLandings). */
  predicate Lands<T>(w: Worker<T>) {
    (|w.posted| + 1) % LAP == 0
  }

  // ------------------------------------------------------------------ one worker

  predicate CanStep<T>(w: Worker<T>, step: Step) {
    match step
    case Test => w.pc.Entering? || w.pc.Woken?
    case SpuriousWake => w.pc.Asleep?
    case Pop => w.pc.Popping?
    case Finish => w.pc.Running?
  }

  /** `window` says that the tail of this worker's queue is one past the last cell. */
  function Stepped<T>(w: Worker<T>, step: Step, window: bool): Worker<T>
    requires CanStep(w, step)
  {
    match step
    case Test => if w.count == 0 then w.(pc := Asleep) else w.(pc := Popping, count := w.count - 1)
    case SpuriousWake => w.(pc := Woken)
    case Pop =>
      if w.queue == [] then w.(pc := if window then Misled else Entering)
      else w.(pc := if w.queue[0].Task? then Running(w.queue[0].task) else Exited, queue := w.queue[1..])
    case Finish => w.(pc := Popping, executed := w.executed + [w.pc.task])
  }

  function Pushed<T>(w: Worker<T>, task: T): Worker<T> {
    w.(queue := w.queue + [Task(task)], posted := w.posted + [task])
  }

  /** flock_cond_signal. */
  function Signalled<T>(w: Worker<T>): Worker<T> {
    w.(count := w.count + 1, pc := if w.count == 0 && w.pc.Asleep? then Woken else w.pc)
  }

  // ------------------------------------------------------------------ the pool

  /** The slot the next post goes to. */
  function NextSlot<T>(s: State<T>): nat {
    if s.current + 1 < |s.workers| then s.current + 1 else 0
  }

  predicate Enabled<T>(s: State<T>, e: Event<T>) {
    match e
    case Post(_) => s.poster.Idle? && s.workers != []
    case Reset => s.poster.Resetting? && s.poster.slot < |s.workers|
    case Signal => s.poster.Signalling? && s.poster.slot < |s.workers|
    case Of(slot, step) => slot < |s.workers| && CanStep(s.workers[slot], step)
  }

  /** The poster is between the two writes of the tail of this slot's queue. */
  predicate Window<T>(s: State<T>, i: nat) { s.poster == Resetting(i) }

  function Apply<T>(s: State<T>, e: Event<T>): State<T>
    requires Enabled(s, e)
  {
    match e
    case Post(task) =>
      var slot := NextSlot(s);
      var s1 := s.(current := slot, attempts := s.attempts + 1);
      if Full(s.workers[slot]) then s1
      else s1.(workers := s.workers[slot := Pushed(s.workers[slot], task)],
               poster := if Lands(s.workers[slot]) then Resetting(slot) else Signalling(slot))
    case Reset => s.(poster := Signalling(s.poster.slot))
    case Signal =>
      s.(workers := s.workers[s.poster.slot := Signalled(s.workers[s.poster.slot])], poster := Idle)
    case Of(slot, step) => s.(workers := s.workers[slot := Stepped(s.workers[slot], step, Window(s, slot))])
  }

  ghost predicate Run<T>(s: State<T>, es: seq<Event<T>>, s': State<T>)
    decreases |es|
  {
    if es == [] then s == s'
    else Enabled(s, es[0]) && Run(Apply(s, es[0]), es[1..], s')
  }

  /** The pool with every slot filled. */
  function Init<T>(n: nat): State<T>
    requires n > 0
  {
    State(seq(n, i => Worker(Entering, 0, [], [], [])), 0, Idle, 0)
  }

  // ------------------------------------------------------------------ invariant

  /** The poster has pushed to this slot and not yet signalled. */
  predicate Mid<T>(s: State<T>, i: nat) { s.poster == Signalling(i) || s.poster == Resetting(i) }

  /** What was posted to a worker is what it has run, what it is running, and what is queued, in this order. */
  ghost predicate InOrder<T>(w: Worker<T>) {
    && |w.posted| == |w.executed| + (if w.pc.Running? then 1 else 0) + |w.queue|
    && w.executed <= w.posted
    && (w.pc.Running? ==> w.pc.task == w.posted[|w.executed|])
    && (forall k :: 0 <= k < |w.queue| ==> w.queue[k] == Task(w.posted[|w.posted| - |w.queue| + k]))
  }

  /** Nobody sleeps over a message: if something is queued, the count is up, the worker is popping, or the
      signal is about to come; and the count is 0 while the worker sleeps. */
  ghost predicate Awake<T>(w: Worker<T>, mid: bool) {
    && !w.pc.Exited?
    && (w.pc.Asleep? ==> w.count == 0)
    && (w.queue != [] ==> w.count > 0 || w.pc.Popping? || w.pc.Running? || mid)
  }

  /** A push can land, and a worker can be misled, only when a whole lap of messages has been posted to it. */
  ghost predicate Lapped<T>(w: Worker<T>, window: bool) {
    && (window ==> |w.posted| % LAP == 0 && |w.posted| >= LAP)
    && (w.pc.Misled? ==> |w.posted| >= LAP)
  }

  ghost predicate WorkerInv<T>(s: State<T>, i: nat)
    requires i < |s.workers|
  {
    && InOrder(s.workers[i]) && Awake(s.workers[i], Mid(s, i)) && Lapped(s.workers[i], Window(s, i))
    && MESSAGE_BYTES * |s.workers[i].queue| <= QUEUE_BYTES
  }

  ghost predicate Inv<T>(s: State<T>) {
    && s.workers != [] && s.current == s.attempts % |s.workers|
    && (!s.poster.Idle? ==> s.poster.slot < |s.workers|)
    && (forall i :: 0 <= i < |s.workers| ==> WorkerInv(s, i))
  }

  lemma StepKeeps<T>(w: Worker<T>, step: Step, window: bool, mid: bool)
    requires CanStep(w, step) && InOrder(w) && Awake(w, mid) && Lapped(w, window)
    ensures var v := Stepped(w, step, window);
      InOrder(v) && Awake(v, mid) && Lapped(v, window) && |v.queue| <= |w.queue|
  {
    var v := Stepped(w, step, window);
    if step.Pop? && w.queue != [] {
      assert w.queue[0] == Task(w.posted[|w.posted| - |w.queue|]);
      assert forall k :: 0 <= k < |v.queue| ==> v.queue[k] == w.queue[k + 1];
    }
  }

  lemma StepInv<T>(s: State<T>, e: Event<T>)
    requires Inv(s) && Enabled(s, e)
    ensures Inv(Apply(s, e))
  {
    hide InOrder, Awake, Lapped, Lands;
    var t := Apply(s, e);
    StepMod(s.attempts, 1, |s.workers|);
    forall i | 0 <= i < |t.workers| ensures WorkerInv(t, i) {
      assert WorkerInv(s, i);
      match e
      case Post(task) => PostKeeps(s, task, i);
      case Reset => ResetKeeps(s, i);
      case Signal => SignalKeeps(s, i);
      case Of(slot, step) => if i == slot { StepKeeps(s.workers[i], step, Window(s, i), Mid(s, i)); }
    }
  }

  lemma PushKeeps<T>(w: Worker<T>, task: T, mid: bool)
    requires InOrder(w) && Awake(w, mid) && Lapped(w, false)
    ensures InOrder(Pushed(w, task)) && Awake(Pushed(w, task), true) && Lapped(Pushed(w, task), Lands(w))
  {
    if Lands(w) {
      LapIsLong(|w.posted| + 1);
    }
  }

  lemma LapIsLong(a: nat)
    requires a > 0 && a % LAP == 0
    ensures a >= LAP
  {
  }

  lemma PostKeeps<T>(s: State<T>, task: T, i: nat)
    requires Enabled(s, Post(task)) && i < |s.workers| && WorkerInv(s, i)
    ensures WorkerInv(Apply(s, Post(task)), i)
  {
    hide InOrder, Awake, Lapped, Lands;
    if i == NextSlot(s) && !Full(s.workers[i]) {
      PushKeeps(s.workers[i], task, Mid(s, i));
    }
  }

  lemma ResetKeeps<T>(s: State<T>, i: nat)
    requires Enabled(s, Reset) && i < |s.workers| && WorkerInv(s, i)
    ensures WorkerInv(Apply(s, Reset), i)
  {
  }

  lemma SignalKeeps<T>(s: State<T>, i: nat)
    requires Enabled(s, Signal) && i < |s.workers| && WorkerInv(s, i)
    ensures WorkerInv(Apply(s, Signal), i)
  {
  }

  lemma {:induction false} RunInv<T>(s: State<T>, es: seq<Event<T>>, s': State<T>)
    requires Inv(s) && Run(s, es, s')
    ensures Inv(s') && |s'.workers| == |s.workers|
    decreases |es|
  {
    if es != [] {
      StepInv(s, es[0]);
      RunInv(Apply(s, es[0]), es[1..], s');
    }
  }

  lemma InitInv<T>(n: nat)
    requires n > 0
    ensures Inv(Init<T>(n))
  {
  }

  // ------------------------------------------------------------------ guarantees

  /** In every interleaving each worker runs its tasks in the order they were posted to it, each once, and no
      worker ever leaves its loop.  It may stop doing so only after 204801 messages, misled. */
  lemma RunsInPostingOrder<T>(n: nat, es: seq<Event<T>>, s: State<T>, i: nat)
    requires n > 0 && i < n && Run(Init(n), es, s)
    ensures |s.workers| == n && !s.workers[i].pc.Exited?
    ensures s.workers[i].executed <= s.workers[i].posted
    ensures |s.workers[i].posted| < LAP ==> !s.workers[i].pc.Misled?
  {
    InitInv<T>(n);
    RunInv(Init(n), es, s);
    assert WorkerInv(s, i);
  }

  /** No lost wakeup: a worker asleep has run everything posted to it, unless the poster has yet to signal. */
  lemma NoLostWakeup<T>(n: nat, es: seq<Event<T>>, s: State<T>, i: nat)
    requires n > 0 && i < n && Run(Init(n), es, s)
    ensures |s.workers| == n
    ensures s.workers[i].pc.Asleep? && !Mid(s, i) ==>
              s.workers[i].queue == [] && s.workers[i].executed == s.workers[i].posted
  {
    InitInv<T>(n);
    RunInv(Init(n), es, s);
    assert WorkerInv(s, i);
  }

  /** Posts go round the slots, refused ones too: the k-th attempt goes to slot k mod n. */
  lemma RoundRobin<T>(n: nat, es: seq<Event<T>>, s: State<T>)
    requires n > 0 && Run(Init(n), es, s)
    ensures |s.workers| == n && NextSlot(s) == (s.attempts + 1) % n
  {
    InitInv<T>(n);
    RunInv(Init(n), es, s);
    StepMod(s.attempts, 1, n);
  }

  /** A post is refused exactly when the chosen queue holds 10240 messages. */
  lemma RefusedIffFull<T>(n: nat, es: seq<Event<T>>, s: State<T>, task: T)
    requires n > 0 && Run(Init(n), es, s) && Enabled(s, Post(task))
    ensures |s.workers| == n
    ensures Apply(s, Post(task)).poster.Idle? <==> |s.workers[NextSlot(s)].queue| == 10240
  {
    InitInv<T>(n);
    RunInv(Init(n), es, s);
    assert WorkerInv(s, NextSlot(s));
  }

  /** How many steps a worker has left before it sleeps, if nothing more comes. */
  function StepsLeft<T>(w: Worker<T>): nat {
    2 * w.count + 2 * |w.queue|
    + (match w.pc
       case Asleep => 0
       case Entering => 1
       case Woken => 1
       case Popping => 2
       case Running(_) => 3
       case Exited => 0
       case Misled => 1)
  }

  function TotalLeft<T>(ws: seq<Worker<T>>): nat {
    if ws == [] then 0 else TotalLeft(ws[..|ws| - 1]) + StepsLeft(ws[|ws| - 1])
  }

  lemma {:induction false} TotalUpdate<T>(ws: seq<Worker<T>>, i: nat, w: Worker<T>)
    requires i < |ws|
    ensures TotalLeft(ws[i := w]) == TotalLeft(ws) - StepsLeft(ws[i]) + StepsLeft(w)
  {
    var front := ws[..|ws| - 1];
    if i < |ws| - 1 {
      TotalUpdate(front, i, w);
      assert ws[i := w][..|ws| - 1] == front[i := w];
    } else {
      assert ws[i := w][..|ws| - 1] == front;
    }
  }

  /** Only the workers move, and none wakes without a reason. */
  predicate WorkersOnly<T>(es: seq<Event<T>>) {
    forall k :: 0 <= k < |es| ==> es[k].Of? && !es[k].step.SpuriousWake?
  }

  lemma {:induction false} WorkersTerminate<T>(s: State<T>, es: seq<Event<T>>, s': State<T>)
    requires Inv(s) && Run(s, es, s') && WorkersOnly(es)
    ensures Inv(s') && s'.poster == s.poster
    ensures |es| == TotalLeft(s.workers) - TotalLeft(s'.workers)
    decreases |es|
  {
    if es != [] {
      var slot := es[0].slot;
      assert WorkerInv(s, slot);
      assert |s.workers[slot].queue| > 0 ==> s.workers[slot].queue[0].Task?;
      TotalUpdate(s.workers, slot, Stepped(s.workers[slot], es[0].step, Window(s, slot)));
      StepInv(s, es[0]);
      WorkersTerminate(Apply(s, es[0]), es[1..], s');
    }
  }

  lemma {:induction false} NoneMisled<T>(s: State<T>, es: seq<Event<T>>, s': State<T>, i: nat)
    requires Run(s, es, s') && WorkersOnly(es) && s.poster.Idle? && i < |s.workers|
    ensures s'.poster.Idle? && |s'.workers| == |s.workers| && s'.workers[i].posted == s.workers[i].posted
    ensures s'.workers[i].pc.Misled? <==> s.workers[i].pc.Misled?
    decreases |es|
  {
    if es != [] {
      NoneMisled(Apply(s, es[0]), es[1..], s', i);
    }
  }

  /** No worker can move, unless it wakes without a reason. */
  ghost predicate Quiet<T>(s: State<T>) {
    forall i, step :: 0 <= i < |s.workers| && CanStep(s.workers[i], step) ==> step.SpuriousWake?
  }

  lemma QuietIsDone<T>(s: State<T>, i: nat)
    requires Inv(s) && s.poster.Idle? && Quiet(s) && i < |s.workers| && !s.workers[i].pc.Misled?
    ensures s.workers[i].pc.Asleep? && s.workers[i].executed == s.workers[i].posted
  {
    var w := s.workers[i];
    assert WorkerInv(s, i);
    assert CanStep(s.workers[i], Test) ==> Test.SpuriousWake?;
    assert CanStep(s.workers[i], Pop) ==> Pop.SpuriousWake?;
    assert CanStep(s.workers[i], Finish) ==> Finish.SpuriousWake?;
    AsleepIsDone(s, i);
  }

  /** Once the poster has finished, the workers come to rest after a number of steps fixed in advance, whatever
      their order, and then each has run everything posted to it, unless it was misled before, which takes
      204801 messages. */
  lemma EverythingIsRun<T>(n: nat, es: seq<Event<T>>, s: State<T>, work: seq<Event<T>>, s': State<T>, i: nat)
    requires n > 0 && i < n && Run(Init(n), es, s) && s.poster.Idle?
    requires Run(s, work, s') && WorkersOnly(work)
    ensures |work| <= TotalLeft(s.workers)
    ensures |s.workers| == |s'.workers| == n && s'.workers[i].posted == s.workers[i].posted
    ensures s.workers[i].pc.Misled? ==> |s.workers[i].posted| >= LAP
    ensures Quiet(s') && !s.workers[i].pc.Misled? ==>
              s'.workers[i].pc.Asleep? && s'.workers[i].executed == s'.workers[i].posted
  {
    hide Inv, TotalLeft, Run, WorkersOnly, Quiet;
    InitInv<T>(n);
    RunInv(Init(n), es, s);
    RunsInPostingOrder(n, es, s, i);
    WorkersTerminate(s, work, s');
    NoneMisled(s, work, s', i);
    if Quiet(s') && !s.workers[i].pc.Misled? {
      QuietIsDone(s', i);
    }
  }

  // ------------------------------------------------------------------ the code

  ghost function Appended<T>(es: seq<Event<T>>, e: Event<T>): seq<Event<T>> { es + [e] }

  lemma {:induction false} RunAppend<T>(s: State<T>, es: seq<Event<T>>, m: State<T>, e: Event<T>)
    requires Run(s, es, m) && Enabled(m, e)
    ensures Run(s, Appended(es, e), Apply(m, e))
    decreases |es|
  {
    if es == [] {
      assert Appended(es, e) == [e] && [e][1..] == [];
    } else {
      RunAppend(Apply(s, es[0]), es[1..], m, e);
      assert Appended(es, e)[1..] == Appended(es[1..], e);
    }
  }

  class Pool<T(0)> {
    var workers: seq<Worker<T>>
    var current: nat
    ghost var attempts: nat

    /** The state as the steps see it, between two posts. */
    ghost function Now(): State<T>
      reads this
    {
      State(workers, current, Idle, attempts)
    }

    /** fthpool_post_task: a null function is refused, and so is any task when the queue is full. */
    method PostTask(task: Option<T>) returns (failed: bool)
      requires workers != []
      modifies this
      ensures task.None? ==> failed && Now() == old(Now())
      ensures task.Some? ==> failed == Full(old(workers[NextSlot(Now())]))
      ensures task.Some? && failed ==> Now() == Apply(old(Now()), Post(task.value))
      ensures !failed ==>
        var pushed := Apply(old(Now()), Post(task.value));
        Now() == Apply(if pushed.poster.Resetting? then Apply(pushed, Reset) else pushed, Signal)
    {
      if task.None? {
        return true;
      }
      attempts := attempts + 1;
      current := current + 1;
      current := if current < |workers| then current else 0;
      var worker := workers[current];
      if Full(worker) {
        return true;
      }
      worker := Pushed(worker, task.value);
      if worker.count == 0 && worker.pc.Asleep? {
        worker := worker.(pc := Woken);
      }
      worker := worker.(count := worker.count + 1);
      workers := workers[current := worker];
      return false;
    }

    /** One step of a worker; `es` records it. */
    method Take(slot: nat, step: Step, ghost was: State<T>, ghost es: seq<Event<T>>) returns (ghost es': seq<Event<T>>)
      requires Inv(Now()) && slot < |workers| && CanStep(workers[slot], step) && !step.SpuriousWake?
      requires Run(was, es, Now()) && OfSlot(es, slot)
      modifies this`workers
      ensures Inv(Now()) && workers == old(workers)[slot := Stepped(old(workers)[slot], step, false)]
      ensures Run(was, es', Now()) && OfSlot(es', slot) && |es'| == |es| + 1
    {
      hide Inv, Run, CanStep, Stepped, Lands;
      es' := Appended(es, Of(slot, step));
      StepInv(Now(), Of(slot, step));
      RunAppend(was, es, Now(), Of(slot, step));
      workers := workers[slot := Stepped(workers[slot], step, false)];
    }

    /** base_work, from its start or from a wakeup until it sleeps: by then it has run everything. */
    method BaseWork(slot: nat) returns (ghost es: seq<Event<T>>)
      requires Inv(Now()) && slot < |workers| && (workers[slot].pc.Entering? || workers[slot].pc.Woken?)
      modifies this`workers
      ensures Inv(Now()) && Run(old(Now()), es, Now()) && OfSlot(es, slot)
      ensures OthersKept(old(workers), workers, slot)
      ensures workers[slot].pc.Asleep? && workers[slot].count == 0
      ensures workers[slot].posted == old(workers)[slot].posted && workers[slot].executed == workers[slot].posted
      ensures |es| == StepsLeft(old(workers)[slot])
    {
      hide Inv, Run;
      es := [];
      ghost var was := Now();
      assert Run(was, es, Now()) by { Nothing(was); }
      while true
        invariant Inv(Now()) && Run(was, es, Now()) && OfSlot(es, slot)
        invariant OthersKept(was.workers, workers, slot)
        invariant workers[slot].pc.Entering? || workers[slot].pc.Woken?
        invariant workers[slot].posted == was.workers[slot].posted
        invariant |es| == StepsLeft(was.workers[slot]) - StepsLeft(workers[slot])
        decreases StepsLeft(workers[slot])
      {
        es := Take(slot, Test, was, es);
        if workers[slot].pc.Asleep? {
          AsleepIsDone(Now(), slot);
          return;
        }
        es := PopLoop(slot, was, es);
      }
    }

    /** The inner loop of base_work. */
    method PopLoop(slot: nat, ghost was: State<T>, ghost es: seq<Event<T>>) returns (ghost es': seq<Event<T>>)
      requires Inv(Now()) && slot < |workers| && workers[slot].pc.Popping?
      requires Run(was, es, Now()) && OfSlot(es, slot)
      modifies this`workers
      ensures Inv(Now()) && Run(was, es', Now()) && OfSlot(es', slot)
      ensures OthersKept(old(workers), workers, slot)
      ensures workers[slot].pc.Entering? && workers[slot].queue == [] && workers[slot].count == old(workers)[slot].count
      ensures workers[slot].posted == old(workers)[slot].posted
      ensures |es'| - |es| == StepsLeft(old(workers)[slot]) - StepsLeft(workers[slot]) > 0
    {
      hide Inv, Run;
      es' := es;
      while workers[slot].queue != []
        invariant Inv(Now()) && Run(was, es', Now()) && OfSlot(es', slot)
        invariant OthersKept(old(workers), workers, slot)
        invariant workers[slot].pc.Popping? && workers[slot].count == old(workers)[slot].count
        invariant workers[slot].posted == old(workers)[slot].posted
        invariant |es'| - |es| == StepsLeft(old(workers)[slot]) - StepsLeft(workers[slot])
        decreases |workers[slot].queue|
      {
        OnlyTasks(Now(), slot);
        es' := Take(slot, Pop, was, es');
        es' := Take(slot, Finish, was, es');
      }
      es' := Take(slot, Pop, was, es');
    }
  }

  predicate OthersKept<T(==)>(was: seq<Worker<T>>, now: seq<Worker<T>>, slot: nat) {
    |now| == |was| && forall i :: 0 <= i < |now| && i != slot ==> now[i] == was[i]
  }

  predicate OfSlot<T>(es: seq<Event<T>>, slot: nat) {
    forall k :: 0 <= k < |es| ==> es[k].Of? && es[k].slot == slot && !es[k].step.SpuriousWake?
  }

  lemma Nothing<T>(s: State<T>)
    ensures Run(s, [], s)
  {
  }

  lemma OnlyTasks<T>(s: State<T>, slot: nat)
    requires Inv(s) && slot < |s.workers| && s.workers[slot].queue != []
    ensures s.workers[slot].queue[0].Task?
  {
    assert WorkerInv(s, slot);
  }

  lemma AsleepIsDone<T>(s: State<T>, slot: nat)
    requires Inv(s) && s.poster.Idle? && slot < |s.workers| && s.workers[slot].pc.Asleep?
    ensures s.workers[slot].count == 0 && s.workers[slot].executed == s.workers[slot].posted
    ensures StepsLeft(s.workers[slot]) == 0
  {
    assert WorkerInv(s, slot);
  }
}
