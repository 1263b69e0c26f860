/** The byte-level operations of FlogRing are runs of the protocol in FlogPipeline. */
module FlogRefinement {
  import opened Bytes
  import opened Fmbuf
  import opened FlogPipeline
  import opened FlogFetcher
  import opened FlogRing

  /** The protocol state in which the fetcher has handled ring `t` with outcome `o`. */
  function AfterPass(s: State, t: ThreadId, o: Outcome): State
    requires t in s.threads
  {
    var threads := if o.quit then s.threads - {t} else s.threads[t := s.threads[t].(ring := o.ring)];
    s.(currAid := o.currAid, written := o.written, threads := threads)
  }

  /** _log_async_process on the bytes is a run of fetches, ended by a release when QUIT is met. */
  lemma {:induction false} PassIsRun(s: State, t: ThreadId, n: nat)
    requires !s.broken && t in s.threads && s.threads[t].registered
    ensures Reaches(s, AfterPass(s, t, PassOver(s.threads[t].ring, s.currAid, s.written, n)))
    decreases |s.threads[t].ring|
  {
    hide Reaches;
    var ring := s.threads[t].ring;
    var s' := AfterPass(s, t, PassOver(ring, s.currAid, s.written, n));
    if ring != [] && ring[0].Quit? {
      ReachesOne(s, Release(t));
      assert s' == DoRelease(s, t);
    } else if ring != [] && NextFor(ring[0], s.currAid) && ring[0].file in s.written {
      var m := DoFetch(s, t);
      PassIsRun(m, t, n + 1);
      ReachesOne(s, Fetch(t));
      var o := PassOver(ring[1..], m.currAid, m.written, n + 1);
      assert AfterPass(m, t, o).threads == AfterPass(s, t, o).threads;
      ReachesTrans(s, m, s');
    } else {
      assert s'.threads == s.threads;
      ReachesNone(s);
    }
  }

  /** The pass leaves nothing at the head of the ring that could be handled, and counts what it has written. */
  lemma PassLeavesStuck(s: State, t: ThreadId)
    requires t in s.threads && s.currAid.Keys == s.written.Keys
    ensures var ring := s.threads[t].ring; var o := PassOver(ring, s.currAid, s.written, 0);
      && Stuck(AfterPass(s, t, o), t)
      && o.n + |o.ring| + (if o.quit then 1 else 0) == |ring|
  {
    PassEnds(s.threads[t].ring, s.currAid, s.written, 0);
  }

  lemma Overwritten<K, V>(m: map<K, V>, k: K, a: V, b: V)
    ensures m[k := a][k := b] == m[k := b]
  {
  }

  /** An idle thread that may reserve comes to hold `body` under the next id. */
  lemma TakeIsRun(s: State, t: ThreadId, f: FileId, headerLen: nat, body: Body)
    requires !s.broken && t in s.threads && s.threads[t].pc.Idle? && f in s.lastAid
    requires |body| <= headerLen + MAX_MSG_LEN + 1
    requires s.threads[t].cap >= Weight(s.threads[t].ring) + HEAD_SIZE + (headerLen + MAX_MSG_LEN + 1)
    ensures var th, aid := s.threads[t], s.lastAid[f] + 1;
      Reaches(s, SetThread(s, t, th.(pc := Holding(f, aid, body, WillCopy(th, headerLen))))
                   .(lastAid := s.lastAid[f := aid], taken := s.taken + [Take(t, f, aid, body)]))
  {
    hide Reaches, Weight, Copies;
    var a := Apply(s, Reserve(t, f, headerLen));
    ReachesOne(s, Reserve(t, f, headerLen));
    ReachesOne(a, TakeAid(t, body));
    ReachesTrans(s, a, DoTake(a, t, body));
    Overwritten(s.threads, t, a.threads[t], DoTake(a, t, body).threads[t]);
  }

  /** The branch a write takes now, for a header of this length. */
  predicate WillCopy(th: Thread, headerLen: nat) {
    Copies(th.cap, th.tail, Weight(th.ring), HEAD_SIZE + (headerLen + MAX_MSG_LEN + 1))
  }

  /** The protocol state in which thread `t` has written with outcome `w`. */
  function AfterWrite(s: State, t: ThreadId, w: Write, headerLen: nat, body: Body, f: FileId): State
    requires t in s.threads && f in w.lastAid
  {
    if w.dropped then SetThread(s, t, s.threads[t].(ring := w.ring)).(lastAid := w.lastAid)
    else
      var th, n := s.threads[t], HEAD_SIZE + |body|;
      var lands := WillCopy(th, headerLen) && Lands(th.cap, th.tail, n);
      SetThread(s, t, th.(pc := if lands then Settling(false) else Notifying(false, false),
                          ring := w.ring, tail := TailAfter(th.cap, th.tail, n)))
        .(lastAid := w.lastAid, taken := s.taken + [Take(t, f, w.lastAid[f], body)])
  }

  lemma PublishIsRun(s: State, t: ThreadId)
    requires Enabled(s, Publish(t))
    ensures Reaches(s, DoPublish(s, t))
  {
    ReachesOne(s, Publish(t));
  }

  /** What a write that is not refused leaves behind. */
  lemma AcceptedIsRun(s: State, t: ThreadId, f: FileId, headerLen: nat, body: Body)
    requires !s.broken && t in s.threads && s.threads[t].pc.Idle? && f in s.lastAid
    requires |body| <= headerLen + MAX_MSG_LEN + 1
    requires s.threads[t].cap >= Weight(s.threads[t].ring) + HEAD_SIZE + (headerLen + MAX_MSG_LEN + 1)
    ensures var th, aid := s.threads[t], s.lastAid[f] + 1;
      var w := Write(th.ring + [Msg(f, aid, body)], s.lastAid[f := aid], false);
      Reaches(s, AfterWrite(s, t, w, headerLen, body, f))
  {
    hide Reaches, Weight, TailAfter, Lands, WillCopy;
    var th, aid := s.threads[t], s.lastAid[f] + 1;
    TakeIsRun(s, t, f, headerLen, body);
    var m := SetThread(s, t, th.(pc := Holding(f, aid, body, WillCopy(th, headerLen))))
               .(lastAid := s.lastAid[f := aid], taken := s.taken + [Take(t, f, aid, body)]);
    PublishIsRun(m, t);
    ReachesTrans(s, m, DoPublish(m, t));
    Overwritten(s.threads, t, m.threads[t], DoPublish(m, t).threads[t]);
  }

  /** _log_async_write_f is a run of the protocol: a refused reservation if that is what the protocol does with
      it, or else reserve, take and publish.  Its
      outcome is the one LogRing.AsyncWriteF has on the bytes: the ring, the tail, the branch and the landing. */
  lemma WriteIsRun(s: State, t: ThreadId, f: FileId, header: seq<byte>, debug: nat -> seq<byte>, text: seq<byte>)
    requires !s.broken && t in s.threads && s.threads[t].pc.Idle? && f in s.lastAid
    requires |debug(s.lastAid[f] + 1)| + |text| <= MAX_MSG_LEN
    ensures var th, body := s.threads[t], BodyOf(header, debug(s.lastAid[f] + 1), text);
      var w := WriteOver(th.ring, th.cap, s.lastAid, f, header, debug, text);
      Reaches(s, AfterWrite(s, t, w, |header|, body, f)) && (w.dropped <==> Apply(s, Reserve(t, f, |header|)) == s)
  {
    var th, body := s.threads[t], BodyOf(header, debug(s.lastAid[f] + 1), text);
    assert |body| <= |header| + MAX_MSG_LEN + 1;
    WriteOverIs(th.ring, th.cap, s.lastAid, f, header, debug, text);
    hide Reaches, BodyOf, Weight, TailAfter, Lands, WillCopy, Copies, WriteOver;
    if th.cap < Weight(th.ring) + HEAD_SIZE + (|header| + MAX_MSG_LEN + 1) {
      ReachesOne(s, Reserve(t, f, |header|));
      assert SetThread(s, t, th) == s;
    } else {
      assert Apply(s, Reserve(t, f, |header|)).threads[t].pc.Reserved?;
      AcceptedIsRun(s, t, f, |header|, body);
    }
  }
}
