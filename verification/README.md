# Verification model of final_libs

This project models the stateful cores of final_libs and proves what they promise:

- **flog** (`FlogPipeline`, `FlogGuarantees`, `FlogWindow`, `FlogFetcher`, `FlogRing`, `FlogRefinement`): any
  number of logging threads, each with a ring of its own, one fetcher, and per-file ids that put the output in
  order. `FlogPipeline` is the protocol over its atomic steps with its invariant; `FlogGuarantees` is what every
  interleaving keeps; `FlogWindow` says exactly when a ring can be misread; `FlogFetcher` is the fetcher's loops,
  which end with everything written; `FlogRing` is the byte layout of the rings over `Fmbuf`; `FlogRefinement`
  shows that the byte operations are protocol steps.
- **fmbuf** (`Fmbuf`, `FmbufSpsc`): the byte ring as a bounded queue, resizing included, and the same code as
  a queue between two threads that do not lock.
- **fhash** (`FhashNode`, `FhashTable`, `FhashIter`, `Fhash`, `FhashCost`): slots, buckets, live iterators,
  additions delayed while iterators exist, rehashing, and its amortised cost.
- **fcache** (`FcacheSpec`, `FcacheList`, `Fcache`, `FcacheMap`): the linked lists and the cache over them refine
  one recency sequence with a split point, and that sequence is a map that may forget.
- **flist** (`FlistSort`, `FlistSpsc`): the in-place insertion sort, and the list as a lock-free queue at the
  level of single pointer accesses on a heap that reuses addresses.
- **fthread_pool with flock** (`PoolQueue`, `ThreadPool`, `ThreadPoolLap`): the byte queue of one worker, the
  wakeup protocol of all of them, and how many messages its promises last.
- the **timer list** (`Timers`, `TimerCallbacks`): drift, early and late firing, a pass over the list, and a pass
  whose callbacks change the list.

`Options`, `Bytes` and `Modulo` are shared helpers.

Code that updates fields or arrays is a class with methods proved against a function of the old state;
code whose point is interleaving is a state machine whose steps are the atomic actions, and statements about
it are about every run.

What the code does not keep, and exactly when:

- An fmbuf index that ends exactly behind the last cell is published as size + 1 before it is reset. Used by one
  reader and one writer without a lock, as flog and fthread_pool use it, a push is safe in every continuation up
  to the next push exactly when it does not end there (`FmbufSpsc.SafeIffInexact`).
- In flog a frame written in place never ends there. A copied one does when it is one byte longer than the cells
  up to the last, and so does QUIT when the tail stands on the last cell (`FlogRing.LogRing.Append`,
  `FlogRing.LogRing.PushQuit`); both states are reachable (`FlogWindow.MisreadIsReachable`,
  `FlogWindow.QuitLandingIsReachable`). The protocol has the two tail writes as two steps, and its guarantees are
  those of every run up to the first misreading; a run in which nothing lands has none
  (`FlogWindow.NoLandingNoMisread`), and `FlogWindow.MisreadableIff` says which rings can be misread. QUIT never is.
- In the thread pool every 204801st message of a worker ends there, and no other (`PoolQueue.ExactLandings`). The
  pool's promises to a worker hold in every interleaving for up to 204800 messages, and at the next one it can
  pop bytes nobody posted (`PoolQueue.SafeWithinLap`, `ThreadPoolLap.SafeIffWithinLap`).
- `fcache_set_obj` divides by zero, while periodic balancing is off, exactly when it succeeds and leaves no entry, or
  entries of less than one byte on average (`Fcache.Fcache.SetObj`, `Fcache.DeleteLastTraps`, `Fcache.EmptyEntryTraps`).
- `fcache_set_obj` believes the key size it is given. A node holds one byte more than that size at most, the index
  the whole key; after a new key is added the index maps exactly the listed keys if and only if the key is not empty
  and not longer than said, or one byte longer and at most 8 (`FcacheList.KeyFitsIff`, `Fcache.Fcache.SetObj`).
  A key cut short leaves the index leading to the node after it is freed (`Fcache.CutKey`, `Fcache.CutKeyDangles`).
- A key set while an fhash iterator is alive waits in a delayed list that `fhash_del` does not search, so the
  key is still found after the delete (`Fhash.Fhash.Del`, `Fhash.SetThenDel`).
- The release of the last fhash iterator doubles the index at most once, so that it leaves five or more keys per
  bucket if and only if ten or more came together (`FhashCost.ReleaseLoadIff`); later sets pay for it, and two node
  moves per set no longer suffice (`FhashCost.CostlyCatchingUp`).
- `_user_thread_destroy` of flog counts on QUIT being the last message of the thread; on a ring without a free
  byte it is lost, and the record of the thread is never released (`FlogGuarantees.LostQuitNeverReleased`).
- If QUIT is not lost, the record can be released while its thread has still to write to it, its eventfd or even the
  second tail value: exactly when QUIT is in the ring and the fetcher knows of the ring or has a wakeup from it
  (`FlogWindow.EarlyReleaseIff`, `FlogWindow.EarlyReleaseIsReachable`).
- A message of flog longer than its limit by more than one byte moves the tail beyond its reservation
  (`FlogRing.FillFitsIff`).
- `fev/fev_tmsvc_modules.h` promises a timeout from the deadline on; it can come up to one millisecond
  early (`Timers.AsDocumentedIff`), and the first period of a timer is not its interval unless its delay is
  (`Timers.FirstPeriod`). With an interval that is no number of seconds the early timeouts become the rule
  (`Timers.EarlyForGood`). A timer that resets itself in its callback waits two intervals, or is destroyed
  (`TimerCallbacks.OwnReset`). A pass whose callbacks add timers without delay need not end while the clock stands still
  (`TimerCallbacks.PassEndsIff`).

## Model

| member | source | states |
|---|---|---|
| FlogPipeline.StepInv | flog/flog.c:590-633 | every step of every thread and of the fetcher keeps the invariant: counters, written output, ring contents and ids in hand fit the history of increments, room is not overcommitted, wakeups are not lost |
| FlogPipeline.ReserveInv | flog/flog.c:598-605 | reserving room keeps the invariant, by which reservations never overcommit a ring and one to be filled in place stays inside the cells |
| FlogPipeline.TakeInv | flog/flog.c:552 | taking an id keeps the invariant: ids are ranks in the history of their file, and a thread's latest increment is the message it holds |
| FlogPipeline.PublishInv | flog/flog.c:612-626 | publishing, in place or by a copy whose tail is written twice, keeps the invariant: the unwritten increments of a thread are, in order, its ring and then its hand |
| FlogPipeline.QuitPushInv | flog/flog.c:884-901 | the push of an exiting thread keeps the invariant: QUIT is the last frame of a ring, exactly for the threads whose QUIT was queued |
| FlogPipeline.SettleInv | fmbuf/fmbuf.c:62-65 | the second write of the tail keeps the invariant |
| FlogPipeline.MisreadInv | flog/flog.c:781-788 | a misreading ends the run; up to it the invariant holds |
| FlogPipeline.NotifyInv | flog/flog.c:629-632 | the eventfd write keeps the invariant: a filled ring the fetcher does not know of has a wakeup on its way |
| FlogPipeline.PollInv | flog/flog.c:832-844 | registering a ring and clearing its event keeps the invariant |
| FlogPipeline.FetchInv | flog/flog.c:738-760 | fetching keeps the invariant: a file holds exactly the first curr_aid bodies of its history |
| FlogPipeline.ReleaseInv | flog/flog.c:764-773 | releasing keeps the invariant; the ring released holds QUIT alone |
| FlogPipeline.FindTake | flog/flog.c:552 | every id up to the counter was taken by some increment |
| FlogPipeline.AidsIncrease | flog/flog.c:552 | within a file ids grow with time, so file and id name one message |
| FlogGuarantees.RunInv | flog/flog.c:590-633 | the invariant holds in every state any interleaving reaches, up to the first misreading of a ring |
| FlogGuarantees.OutputInOrder | flog/flog.c:738-759 | a file holds exactly the messages with ids 1..curr_aid, each once, in the order the ids were taken |
| FlogGuarantees.OutputOnlyGrows | flog/flog.c:753 | output is only extended; an id stays with its message |
| FlogGuarantees.ThreadOrder | flog/flog.c:738-741 | a written message has all earlier messages of its thread written, whatever their files |
| FlogGuarantees.Conservation | flog/flog.c:552 | an id is in a file, in one ring slot or in one hand if and only if it lies in 1..last_aid, and then in exactly one of these places |
| FlogGuarantees.PublishFits | flog/flog.c:598-626 | the room reserved is still there when the frame is published, whatever ran in between, and contiguous behind the tail if the frame is written in place |
| FlogGuarantees.ReleaseLosesNothing | flog/flog.c:764-773 | QUIT is met only when it is alone in its ring and every message of its thread is written |
| FlogGuarantees.QuitQueuedIffRoom | flog/flog.c:895-897 | QUIT gets into the ring if and only if a byte is free |
| FlogGuarantees.LostQuitNeverReleased | flog/flog.c:895-900 | a thread whose QUIT was refused is never released, in any continuation |
| FlogGuarantees.FullRingIsReachable | flog/flog.c:601-626 | a run that fills a ring to the last byte, so that QUIT is refused |
| FlogGuarantees.EarliestIsNext | flog/flog.c:738-741 | the earliest unwritten increment carries the next id of its file |
| FlogGuarantees.EarliestIsFirst | flog/flog.c:738-741 | and it is the first unwritten one of its thread |
| FlogGuarantees.NoDeadlock | flog/flog.c:776-798 | as long as something is unwritten, nothing is in hand and rings are registered, some ring's head can be fetched |
| FlogGuarantees.AllWritten | flog/flog.c:853-864 | when nothing is unwritten every file has reached last_aid and no ring holds a message |
| FlogWindow.NoLandingNoMisread | flog/flog.c:612-626 | a run in which no push ends behind the last cell is never broken by a misreading |
| FlogWindow.OnlyMessagesAreMisread | flog/flog.c:764-773 | a QUIT that lands is never misread |
| FlogWindow.StaysPut | flog/flog.c:590-633 | while others move a thread stays where it is, and its ring becomes known only through a wakeup it had sent |
| FlogWindow.CanBeMisread | flog/flog.c:776-798 | from any state with a thread between the two tail writes of a message, and known to the fetcher, the others can finish and the fetcher can write everything and misread the ring |
| FlogWindow.MisreadableIff | flog/flog.c:776-798 | while a thread stands still its ring can be misread if and only if the thread is between the two tail writes of a message and is registered or has a wakeup pending |
| FlogWindow.MisreadIsReachable | flog/flog.c:618-626 | a run with two messages that the fetcher misreads: the second does not find its reservation contiguous, so the code copies it, and it lands |
| FlogWindow.QuitLandingIsReachable | flog/flog.c:895-897 | a run after which the QUIT of the exiting thread lands |
| FlogWindow.EarlyReleaseIff | flog/flog.c:895-901 | while a thread stands still that is not gone yet, its record can be released if and only if its QUIT is pushed and it is registered or has a wakeup pending |
| FlogWindow.EarlyReleaseIsReachable | flog/flog.c:764-773 | runs after which the record can be released before the thread's eventfd_write, and before its second tail write |
| FlogWindow.OthersFinish | flog/flog.c:853-864 | whatever state a known thread stands still in, unless it holds an id, the others can finish and the fetcher can write everything |
| FlogFetcher.Fetcher.FetchMsg | flog/flog.c:715-761 | waits exactly when the head is not next; otherwise is the protocol's fetch |
| FlogFetcher.Fetcher.ThreadQuit | flog/flog.c:764-773 | is the protocol's release |
| FlogFetcher.Fetcher.AsyncProcess | flog/flog.c:776-798 | handles one ring until its head is stuck; counts exactly the messages that got written; touches no other ring |
| FlogFetcher.Fetcher.DrainRound | flog/flog.c:854-861 | a round over all rings counts exactly what it writes; if that is nothing no ring can be handled any further |
| FlogFetcher.Fetcher.DrainRounds | flog/flog.c:853-864 | the round loop terminates, measured by the unwritten increments, with every ring stuck; and with everything written if nothing was in hand and every filled ring was known |
| FlogFetcher.Fetcher.ServeEvents | flog/flog.c:832-847 | every pending event taken is cleared, its ring registered and handled: if nothing gets written on the way, none of these rings can be handled any further |
| FlogFetcher.Fetcher.PollReady | flog/flog.c:821 | epoll_wait: all pending events, or 1024 of them |
| FlogFetcher.Fetcher.FinishAndExit | flog/flog.c:820-866 | the fetcher's loop ends; everything taken is written in order if nothing was in hand and it had been told of every filled ring; and if all producers are idle or gone, all rings are empty and every thread whose QUIT was queued is released |
| FlogFetcher.StuckMeansWritten | flog/flog.c:853-864 | nothing in hand, every filled ring known and no ring able to move means that everything is written, whatever producers have reserved or are about to notify |
| FlogFetcher.StuckMeansDrained | flog/flog.c:853-866 | with no producer at work, no event pending and no ring able to move, everything is out and every thread whose QUIT was queued is released |
| FlogRing.LittleEndianRoundTrip | flog/flog.c:549-553 | a field of the packed head reads back as written, for every value that fits its width |
| FlogRing.HeadRoundTrip | flog/flog.c:733-735 | the head of an encoded message decodes to its file, id and length, whatever follows it |
| FlogRing.WeightIsBytes | flog/flog.c:586 | the bytes of a ring's frames are as many as the protocol counts |
| FlogRing.DecodingIsUnique | flog/flog.c:776-798 | a ring's bytes can be read as frames in one way only |
| FlogRing.LayoutPush | flog/flog.c:612-626 | appending an encoded frame leaves a concatenation of whole frames |
| FlogRing.LayoutHead | flog/flog.c:784-788 | what stands at the head of a ring: its protocol id, its head, its body, and whole frames behind it |
| FlogRing.FillFitsIff | flog/flog.c:570-586 | a filled frame stays inside its reservation if and only if debug text and text are at most one byte over the limit |
| FlogRing.PassEnds | flog/flog.c:776-798 | from any ring frames leave at the head only, as long as they can, and the messages among them are counted |
| FlogRing.LogRing.FillAsyncMsg | flog/flog.c:544-587 | takes the next id and lays out one frame, never longer than its reservation |
| FlogRing.LogRing.AsyncWriteF | flog/flog.c:590-633 | dropped, with no id taken and the ring as it was, if and only if the largest frame does not fit; otherwise exactly one frame is appended, with the next id and header, debug text, text and newline as its body, and the tail is written twice exactly when a copied frame ends behind the last cell |
| FlogRing.LogRing.Append | flog/flog.c:607-626 | in place or by a copy, the ring's bytes are the old ones followed by the frame; which branch is taken, as the protocol has it, and that only the copy can land, exactly when the frame is one byte longer than the cells up to the last |
| FlogRing.LogRing.AppendInPlace | flog/flog.c:612-617 | the direct write lands in contiguous free space and moves the tail once, inside the cells |
| FlogRing.LogRing.PushQuit | flog/flog.c:885-901 | QUIT is lost if and only if no byte is free, and its tail is written twice if and only if it stood on the last cell |
| FlogRing.LogRing.FetchMsg | flog/flog.c:715-761 | on the bytes, wrapped or not: parses and removes exactly the head frame, or leaves all as it was |
| FlogRing.LogRing.AsyncProcess | flog/flog.c:776-798 | one pass over the bytes stops only at QUIT, at the end of the ring or before a message that is not next for its file, and counts the messages gone; it does to the frames what PassOver says |
| FlogRefinement.PassIsRun | flog/flog.c:776-798 | the pass over a ring's bytes is a run of protocol fetches, ended by a release at QUIT |
| FlogRefinement.PassLeavesStuck | flog/flog.c:776-798 | and after it nothing at the head of the ring can be handled; the count is what has left |
| FlogRefinement.WriteIsRun | flog/flog.c:590-633 | the outcome a write has on the bytes, dropped or not, copied or in place, landing or not, is what protocol steps reach: a refused reservation, exactly when the protocol refuses it, or reserve, take, publish |
| Fmbuf.WindowLength | fmbuf/fmbuf.c:18-26 | used and free add up to the size at every head and tail; the queue is empty exactly when they meet |
| Fmbuf.WindowAt | fmbuf/fmbuf.c:83-109 | the i-th queued byte lies i cells behind head, around the end |
| Fmbuf.WindowAppend | fmbuf/fmbuf.c:55-79 | cells filled behind tail become the last queued bytes at every wrap position |
| Fmbuf.MovedBehind | fmbuf/fmbuf.c:230-273 | the part at the start may move behind the part at the end |
| Fmbuf.MovedToEnd | fmbuf/fmbuf.c:230-316 | the part at the end may move to the end of longer or shorter cells |
| Fmbuf.Fmbuf.Push | fmbuf/fmbuf.c:55-79 | fails, changing nothing, if and only if the data are empty or larger than what is free; otherwise appends them; the tail is written twice exactly when it ends behind the last cell |
| Fmbuf.Fmbuf.Pop | fmbuf/fmbuf.c:83-109 | fails, changing nothing, if and only if nothing or too much is asked for; otherwise takes that prefix off |
| Fmbuf.Fmbuf.VPop | fmbuf/fmbuf.c:112-136 | the same, also refused without a scratch buffer |
| Fmbuf.Fmbuf.RawGet | fmbuf/fmbuf.c:138-155 | the prefix, with nothing taken off |
| Fmbuf.Fmbuf.Alloc | fmbuf/fmbuf.c:157-170 | finds room if and only if enough is free anywhere, after a rewind if need be, and keeps the queue |
| Fmbuf.Fmbuf.Rewind | fmbuf/fmbuf.c:172-182 | slides the queue to the start of the cells, unchanged |
| Fmbuf.Fmbuf.Clear | fmbuf/fmbuf.c:184-187 | empties the queue |
| Fmbuf.Fmbuf.HeadSeek | fmbuf/fmbuf.c:189-196 | moves the head by an offset either way |
| Fmbuf.Fmbuf.TailSeek | fmbuf/fmbuf.c:198-205 | moves the tail by an offset either way |
| Fmbuf.Fmbuf.Used | fmbuf/fmbuf.c:207-210 | the length of the queue |
| Fmbuf.Fmbuf.Free | fmbuf/fmbuf.c:212-215 | the size minus the length of the queue |
| Fmbuf.Fmbuf.Increase | fmbuf/fmbuf.c:230-273 | growing keeps the queue in the linear and in both wrapped layouts |
| Fmbuf.Fmbuf.Decrease | fmbuf/fmbuf.c:276-316 | shrinking keeps the queue and gives up free cells only |
| Fmbuf.Fmbuf.Realloc | fmbuf/fmbuf.c:318-328 | any requested size keeps the queue; the new size is the larger of the request and the queue's length |
| FmbufSpsc.StepInv | fmbuf/fmbuf.c:57-106 | every step of producer and consumer keeps the queue in the cells, except a pop that begins in the glitch |
| FmbufSpsc.MomentaryIndex | fmbuf/fmbuf.c:62-65 | the momentary index gives the producer the settled free size always, and the consumer the settled used size exactly outside the glitch |
| FmbufSpsc.LandsWhen | fmbuf/fmbuf.c:58-65 | a push ends exactly behind the last cell if and only if all bytes pushed with it are a multiple of the number of cells |
| FmbufSpsc.GlitchIs | fmbuf/fmbuf.c:18-21 | the consumer misreads the queue if and only if it finds it empty between the two tail writes |
| FmbufSpsc.NoOverwrite | fmbuf/fmbuf.c:57-73 | no cell still to be read is written |
| FmbufSpsc.PoppedIsPrefix | fmbuf/fmbuf.c:55-109 | over every interleaving without an exact landing the bytes popped are a prefix of the bytes pushed |
| FmbufSpsc.ExactLandingOverrun | fmbuf/fmbuf.c:60-66 | from every state in which a push would end exactly behind the last cell, whatever the consumer is at, a run in which more is popped than was ever pushed, by any amount up to the whole ring |
| FmbufSpsc.SafeIffInexact | fmbuf/fmbuf.c:58-66 | all continuations of an accepted push up to the next push are safe if and only if it does not end exactly behind the last cell |
| FhashNode.CountValid | fhash/fhash_core.c:232-241 | the valid slots are as many as the keys |
| FhashNode.BlockHolds | fhash/fhash_core.c:22-30 | the block of a slot, reused or not, holds key, value and both zero bytes, and never shrinks |
| FhashNode.FreeSlotExists | fhash/fhash_core.c:359-389 | a free slot exists if and only if used < size, so the two asserts cannot fail |
| FhashNode.Find | fhash/fhash_core.c:244-261 | the first valid slot with the key, or proof that there is none |
| FhashNode.FirstFree | fhash/fhash_core.c:286-300 | the first invalid slot, if any |
| FhashNode.BestFree | fhash/fhash_core.c:304-344 | the invalid slot that fits with least waste, the first of equals; the first invalid one if none fits |
| FhashNode.ScanValid | fhash/fhash_core.c:434-463 | the first valid slot from the iterator's slot on |
| FhashNode.Add | fhash/fhash_core.c:348-375 | adds the pair in the free slot that wastes least, keeping its block if that is large enough; doubles the list only when it is full |
| FhashNode.AddNode | fhash/fhash_core.c:378-393 | moves a node into the first free slot; doubles the list only when it is full |
| FhashTable.SumIsSize | fhash/fhash_core.c:533-556 | slots_used, the sum over the buckets, is the number of keys |
| FhashTable.KeyPosition | fhash/fhash_core.c:467-472 | every key sits in its hash bucket |
| FhashTable.OnePosition | fhash/fhash_core.c:507-530 | and in one slot only |
| FhashTable.TableOverwrite | fhash/fhash_core.c:562-576 | overwriting a key's node changes that pair alone and moves no slot |
| FhashTable.TableFree | fhash/fhash_core.c:589-606 | invalidating a key's node removes that pair alone and moves no slot |
| FhashTable.Table.Set | fhash/fhash_core.c:507-530 | the table's map gains or updates the one pair |
| FhashTable.Table.SetNode | fhash/fhash_core.c:533-556 | the same for a moved node |
| FhashTable.Table.SetOnly | fhash/fhash_core.c:562-576 | succeeds if and only if the key is known; no slot is taken or moved |
| FhashTable.Table.Get | fhash/fhash_core.c:579-586 | the value, if and only if the key is in the table |
| FhashTable.Table.Del | fhash/fhash_core.c:589-606 | removes the key, if it is there, and moves no slot |
| FhashTable.Table.FetchAndDel | fhash/fhash_core.c:609-634 | the same, with as much of the value as the caller's buffer takes |
| FhashIter.NextPosIs | fhash/fhash_core.c:637-664 | one step goes to the first valid slot ahead of the cursor and past no other |
| FhashIter.RunInv | fhash/fhash_core.c:637-664 | what an iterator knows survives any mix of its own steps with sets, deletes and other iterators |
| FhashIter.WalkYieldsAll | fhash/fhash_core.c:434-463 | an iterator yields nothing twice, nothing that was not there when it was made, and everything it passed that was there all along; at its end, every such key |
| FhashIter.WalkEnds | fhash/fhash_core.c:637-664 | an iterator asked once more than there were keys when it was made has finished, whatever was set and deleted in between; before that it yields one key each time |
| Fhash.Fhash.Set | fhash/fhash_core.c:826-849 | what users see gains the pair; with iterators alive no slot moves and a new key waits in the delayed list; without them the index grows exactly by the threshold rule |
| Fhash.Fhash.SetShared | fhash/fhash_core.c:836-842 | in place for a known key, delayed for a new one |
| Fhash.Fhash.SetDelay | fhash/fhash_core.c:753-764 | the delayed map gains the pair |
| Fhash.Fhash.Get | fhash/fhash_core.c:851-866 | reads the union of table and delayed list |
| Fhash.Fhash.Del | fhash/fhash_core.c:868-876 | removes the key from the table; from what users see if and only if it was not delayed |
| Fhash.Fhash.FetchAndDel | fhash/fhash_core.c:878-894 | the same, with as much of the value as fits |
| Fhash.Fhash.Next | fhash/fhash_core.c:637-664 | the loop over buckets yields the node and cursor of one step of the walk |
| Fhash.Fhash.IterRelease | fhash/fhash_core.c:907-927 | what users see is unchanged; the last release leaves nothing delayed and rehashes by the threshold rule, once |
| Fhash.Fhash.PerformActions | fhash/fhash_core.c:767-792 | merging the delayed list loses and doubles no key |
| Fhash.Fhash.TryRehash | fhash/fhash_core.c:715-750 | the pairs stay; the index doubles exactly when five keys fall on a bucket and it can still grow |
| Fhash.Fhash.RehashTo | fhash/fhash_core.c:948-967 | any other positive size, or twice the present one, up to the cap, for 0; refused exactly while iterators are alive, at the largest index or at the same size |
| Fhash.Fhash.Rehash | fhash/fhash_core.c:668-701 | a table of the new size with the same pairs, each moved once |
| Fhash.Fhash.MoveNodes | fhash/fhash_core.c:676-690 | the migration loop ends with every pair moved, by an iterator on a table that is blanked behind it |
| Fhash.CopyOne | fhash/fhash_core.c:676-690 | one round of that loop: the next node is new to the new table and the rest stays ahead |
| Fhash.SetThenDel | fhash/fhash_core.c:826-876 | set, delete, get of a new key: gone without iterators, still there with one |
| FhashCost.SetSteps | fhash/fhash_core.c:844-848 | the real set drives the load as the cost model's steps say |
| FhashCost.DelSteps | fhash/fhash_core.c:868-876 | and so does the real delete |
| FhashCost.AmortisedCost | fhash/fhash_core.c:704-750 | over any run from any balanced load fewer than five keys per bucket while the index can grow, and at most two nodes moved per set |
| FhashCost.FromCreation | fhash/fhash_core.c:795-814 | in particular from a fresh hash of any size |
| FhashCost.GrownIs | fhash/fhash_core.c:32-35 | from five keys per bucket on the index becomes twice as large, up to the cap; below that it stays |
| FhashCost.ReleaseSteps | fhash/fhash_core.c:907-927 | the last release brings in all delayed pairs, moving every node once if the threshold is reached |
| FhashCost.ReleaseLoadIff | fhash/fhash_core.c:920-926 | after it there are fewer than five keys per bucket if and only if there would have been fewer than ten without the doubling |
| FhashCost.CatchingUp | fhash/fhash_core.c:734-750 | if there are more, every following set moves all nodes until the load is down |
| FhashCost.CostlyCatchingUp | fhash/fhash_core.c:734-750 | so that two moves per set are exceeded: 402 sets, 1200 moves |
| FcacheSpec.BalanceMovesOnlyTheSplit | fcache/fcache.c:135-153 | balancing keeps the recency sequence, leaves the active list at most half of it, shortening nothing else, and is idempotent |
| FcacheSpec.DropsShortestPrefix | fcache/fcache.c:193-212 | eviction takes the shortest prefix that frees enough bytes |
| FcacheSpec.MakeRoomCutsAPrefix | fcache/fcache.c:166-214 | after at most one balance the shortest sufficient prefix of the recency sequence goes, and nothing when refused |
| FcacheSpec.AddKeepsBudget | fcache/fcache.c:224-245 | the budget holds; the new entry comes in at the split; a refused add keeps every entry |
| FcacheSpec.AddConservesObjects | fcache/fcache.c:224-245 | every object is afterwards in the cache or was handed to the free callback, with multiplicity |
| FcacheSpec.RefusedIff | fcache/fcache.c:185-197 | an add is refused if and only if it needs more than the entries up to the split hold after one balance |
| FcacheSpec.SplitAfterAdd | fcache/fcache.c:185-197 | an add leaves the active list alone as long as the inactive one holds the bytes needed; otherwise, accepted or refused, the active list is cut to the most recent half of the entries |
| FcacheSpec.NoAverageIffEmpty | fcache/fcache.c:249-255 | if every entry has a size, only the empty cache has no average |
| FcacheSpec.DeleteNoAverageIff | fcache/fcache.c:243-255 | seen before the call: deleting a cached key leaves no average if and only if it is the only one or the bytes left are fewer than the entries left |
| FcacheSpec.UpdateNoAverageIff | fcache/fcache.c:240-255 | a same-size update leaves no average if and only if there was none |
| FcacheSpec.AddNoAverageIff | fcache/fcache.c:237-255 | an accepted add leaves no average if and only if the new size and the bytes behind the shortest sufficient prefix are fewer than the entries that are then there |
| FcacheSpec.TouchMovesToEnd | fcache/fcache.c:264-291 | a get moves exactly the entry found to the most recent end |
| FcacheSpec.LookupIsFirst | fcache/fcache.c:231 | the entry a key leads to is the first with that key in the recency sequence |
| FcacheSpec.TouchIs | fcache/fcache.c:277-290 | a get moves the entry found to the most recent end and into the active list, and no other entry |
| FcacheSpec.DeleteIs | fcache/fcache.c:112-122 | a delete takes out the entry found; the others keep order and list |
| FcacheSpec.UpdateIs | fcache/fcache.c:96-109 | a same-size update leaves the entry where it is |
| FcacheSpec.NearlyFullBetween | fcache/fcache.c:248-259 | balancing is switched on while at most 2000 of the smallest entries fit in the free bytes, and not while more than 2000 of the largest do |
| FcacheList.FcList.Push | fcache/fcache_list.c:76-94 | appends the node; links, size and total stay consistent |
| FcacheList.FcList.Pop | fcache/fcache_list.c:96-111 | takes the first node off; the pre link of the new head is left as it was |
| FcacheList.FcList.DeleteNode | fcache/fcache_list.c:113-137 | unlinks a node anywhere in the list |
| FcacheList.MoveNode | fcache/fcache_list.c:139-155 | to the end of the same or of the other list |
| FcacheList.FcList.UpdateNode | fcache/fcache_list.c:157-164 | the total stays the sum of the node sizes if and only if the size is the same |
| FcacheList.KeyFitsIff | fcache/fcache_list.c:63-69 | a node made for a key of a given size holds the key, with its end, if and only if the key is not longer than said, or one byte longer and at most 8 |
| Fcache.Fcache.BalanceNodes | fcache/fcache.c:135-153 | the loop is the specification's balance; the nodes by recency stay |
| Fcache.Fcache.DropNodes | fcache/fcache.c:199-212 | the dropping loop drops exactly the specified prefix, index and free callback included |
| Fcache.Fcache.CheckAndDrop | fcache/fcache.c:166-214 | is the specification's MakeRoom; an existing node that does not grow changes nothing |
| Fcache.Fcache.AddNode | fcache/fcache.c:75-93 | a node at the end of the inactive list; the index then maps exactly the listed keys if and only if the key fits its size |
| Fcache.IndexAdd | fcache/fcache.c:79-87 | indexing the new node under the whole key keeps the index right if and only if the node holds that key |
| Fcache.Fcache.DropOldest | fcache/fcache.c:112-122 | the index forgets the key stored in the oldest node, whether it was right before or not |
| Fcache.Fcache.Create | fcache/fcache.c:24-49 | an empty cache, or none for a budget of 0 |
| Fcache.Fcache.DelNode | fcache/fcache.c:112-122 | the node leaves list and index, its object goes to the free callback |
| Fcache.Fcache.UpdateNode | fcache/fcache.c:96-109 | replaces the object in place; the old one is freed exactly when it is another |
| Fcache.Fcache.SetObj | fcache/fcache.c:224-262 | bad arguments change nothing; otherwise add, update or delete as specified, with the budget and the two disjoint lists kept; when exactly the index stays right; the balancing flag as the heuristic sets it, and exactly when that divides by zero |
| Fcache.SetConserves | fcache/fcache.c:224-262 | over a whole call every object handed in or cached before is cached or was given to the free callback, with multiplicity; nothing is freed without the callback |
| Fcache.Fcache.EnableBalance | fcache/fcache.c:248-259 | the heuristic over the lists' totals is the one over the recency sequence, and divides by zero exactly when there is no average |
| Fcache.DeleteLastTraps | fcache/fcache.c:253-254 | deleting the only entry of any cache without periodic balancing divides by zero |
| Fcache.OneEntry | fcache/fcache.c:224-262 | such a cache is one object away from creation |
| Fcache.EmptyEntryTraps | fcache/fcache.c:255 | so does adding an entry of size 0 without an object to an empty cache |
| Fcache.CutKey | fcache/fcache_list.c:196-201 | a call after which the node holds the start of the key and the index the whole |
| Fcache.CutKeyDangles | fcache/fcache.c:112-122 | after such a node is dropped the index still leads from the key to it |
| Fcache.Fcache.GetObj | fcache/fcache.c:264-291 | the object cached under the key, which becomes the most recent, after the periodic balance that comes with every 2000th get once balancing is on |
| FcacheMap.LookupIs | fcache/fcache.c:231 | what a lookup finds is what the entries store, in both directions |
| FcacheMap.ValidMaps | fcache/fcache.c:75-93 | a valid cache stores each key once, hence is a map |
| FcacheMap.TouchMaps | fcache/fcache.c:264-291 | a get changes no pair |
| FcacheMap.UpdateMaps | fcache/fcache.c:96-109 | a same-size update changes exactly one pair |
| FcacheMap.DeleteMaps | fcache/fcache.c:112-122 | a delete removes exactly one key |
| FcacheMap.AddMaps | fcache/fcache.c:224-245 | a refused add changes no pair; an accepted one stores the pair and forgets exactly the keys of the shortest sufficient prefix |
| FlistSort.SortedIsStableSort | flist/flist.c:89-131 | for a total preorder the result is ascending, a permutation, and keeps the order of equal elements |
| FlistSort.SortedStable | flist/flist.c:104-106 | elements that compare equal keep their order |
| FlistSort.InsertNext | flist/flist.c:101-126 | one insertion puts the next element where the scan stopped |
| FlistSort.StopsAtOnce | flist/flist.c:103-108 | inside the sorted part every scan stops at the predecessor |
| FlistSort.NextRound | flist/flist.c:100-128 | a round sorts one element more or is a step inside the sorted part |
| FlistSort.Stop | flist/flist.c:101-108 | where a scan stops: every element from that place on is above the one inserted, and the element before it is not |
| FlistSort.CutOut | flist/flist.c:115-119 | unlinking a node leaves the others linked both ways |
| FlistSort.PutBehind | flist/flist.c:121-125 | linking it behind an earlier node links all both ways |
| FlistSort.FList.MoveBehind | flist/flist.c:110-126 | the list with one node moved: links, tail and nodes |
| FlistSort.FList.ScanBack | flist/flist.c:101-108 | stops at the last node before that is not above it, or at the dummy |
| FlistSort.FList.Sort | flist/flist.c:90-131 | terminates for every total comparison, with exactly the sorted contents, valid links and tail; refused exactly on an empty list |
| FlistSort.FList.Push | flist/flist.c:41-56 | appends |
| FlistSort.FList.Pop | flist/flist.c:58-66 | the first element, if and only if there is one |
| FlistSpsc.StepInv | flist/flist.c:41-66 | every single pointer access of producer and consumer keeps list, heap and history consistent |
| FlistSpsc.NoFault | flist/flist.c:41-66 | no step reads, writes or frees an address that is not allocated |
| FlistSpsc.QueueIsFifo | flist/flist.c:41-73 | over every interleaving, with addresses reused: data come out in order, none lost, none twice; the list looks empty exactly when all is popped |
| FlistSpsc.PopReturnsNext | flist/flist.c:58-73 | in every interleaving a pop finds an element if and only if one is there, and then returns the oldest after four more steps of its own, whatever the producer does |
| FlistSpsc.PopGoesOn | flist/flist.c:58-66 | a pop under way can always go on, and changes what was popped in its last step only |
| FlistSpsc.PushGoesOn | flist/flist.c:41-56 | a push under way can always go on, and its element is in after its own steps |
| FlistSpsc.NothingLeaks | flist/flist.c:58-66 | between operations one node more than queued elements is allocated |
| FlistSpsc.FreedIsUnreachable | flist/flist.c:63-64 | the node about to be freed is reachable neither from head nor from tail |
| PoolQueue.ExactLandings | fthread_pool/fthread_pool.c:10 | in any state of a queue that carries whole messages, the next message ends behind the last cell if and only if it is the k-th with k a multiple of 204801 |
| PoolQueue.WithinLap | fthread_pool/fthread_pool.c:115-116 | a run that accepts fewer than 204801 messages has no exact landing |
| PoolQueue.LapOverrun | fthread_pool/fthread_pool.c:52-53 | a run of whole messages in which one more is popped than pushed, at the 204801st |
| PoolQueue.SafeWithinLap | fthread_pool/fthread_pool.c:51-62 | all runs accepting at most k messages pop a prefix of what was pushed if and only if k is at most 204800 |
| ThreadPool.StepInv | fthread_pool/fthread_pool.c:43-66 | every step of poster and workers keeps order, conservation and wakefulness; a window opens, and a worker is misled, only after a whole lap of messages |
| ThreadPool.RunsInPostingOrder | fthread_pool/fthread_pool.c:51-62 | over every interleaving what a worker has run is a prefix of what was posted to it, no worker exits, and none is misled before its 204801st message |
| ThreadPool.NoLostWakeup | flock/flock.c:15-35 | a sleeping worker has run everything posted to it, unless the signal is still to come |
| ThreadPool.RoundRobin | fthread_pool/fthread_pool.c:112-114 | the k-th attempt goes to slot k mod n, refused attempts included |
| ThreadPool.RefusedIffFull | fthread_pool/fthread_pool.c:115-116 | a post is refused if and only if the queue holds 10240 messages |
| ThreadPool.WorkersTerminate | fthread_pool/fthread_pool.c:48-64 | every worker step lowers the work left by exactly one |
| ThreadPool.EverythingIsRun | fthread_pool/fthread_pool.c:43-66 | once the poster is done the workers rest after a bounded number of steps in any order, with everything run by every worker that was not misled, which takes 204801 messages |
| ThreadPool.Pool.PostTask | fthread_pool/fthread_pool.c:103-121 | refused for a null function or a full queue; otherwise a post step, the second tail write when the message lands, and the signal |
| ThreadPool.Pool.PopLoop | fthread_pool/fthread_pool.c:51-62 | empties the queue by steps of that worker alone |
| ThreadPool.Pool.BaseWork | fthread_pool/fthread_pool.c:43-66 | from a wakeup to sleep in exactly the steps counted, with everything run and no other worker touched |
| ThreadPoolLap.MisledIsReached | fthread_pool/fthread_pool.c:51-62 | in a pool of any size, for any of its workers, a run that misleads the worker at its 204801st message |
| ThreadPoolLap.SafeIffWithinLap | fthread_pool/fthread_pool.c:103-121 | in a pool of any size no interleaving that posts at most k messages to a worker misleads it, if and only if k is at most 204800 |
| Timers.Quotient | fev/fev_tmsvc_modules.c:22 | division toward zero, as in C |
| Timers.TimeoutExactly | fev/fev_tmsvc_modules.c:9-29 | exactly when a timer times out, by the sign of the nanosecond difference |
| Timers.TimeoutBounds | fev/fev_tmsvc_modules.c:9-29 | never late, and early by less than a millisecond |
| Timers.AsDocumentedIff | fev/fev_tmsvc_modules.h:53-60 | as documented if and only if the clock is not read in the last millisecond with its nanoseconds behind the start's |
| Timers.FiresEarly | fev/fev_tmsvc_modules.c:22 | a timer that fires one nanosecond early |
| Timers.RearmedMoves | fev/fev_tmsvc_sl_mod.c:82-87 | re-arming moves the start by exactly one interval although nothing is carried |
| Timers.NoDrift | fev/fev_tmsvc_sl_mod.c:64-99 | after k firings, whenever the passes were, the start has moved by k intervals and the deadline lies k + 1 intervals after the first start |
| Timers.OneShot | fev/fev_tmsvc_sl_mod.c:78-97 | over any passes a timer without interval fires exactly once, in the first pass that finds it due; until then it stays as it is, then it is destroyed |
| Timers.DeadIsDropped | fev/fev_tmsvc_sl_mod.c:73-76 | a deleted timer, or one without callback, never fires and is destroyed by the first pass |
| Timers.NothingCarried | fev/fev_tmsvc_sl_mod.c:82-87 | k firings add k times the whole seconds to the seconds and k times the rest to the nanoseconds |
| Timers.EarlyForGood | fev/fev_tmsvc_modules.c:9-29 | an interval that is no number of seconds: after enough firings the timer times out, in every period, exactly from just under a millisecond before its deadline on |
| Timers.FirstPeriod | fev/fev_tmsvc_sl_mod.c:82-87 | the first period is the interval if and only if the delay was |
| Timers.NeverAhead | fev/fev_tmsvc_sl_mod.c:78-91 | a later firing is never ahead of its multiple of the interval by a millisecond or more, and a pass without one comes before the deadline |
| Timers.KeptInOrder | fev/fev_tmsvc_sl_mod.c:70-98 | a pass keeps exactly the timers it does not destroy, in their order |
| Timers.Independent | fev/fev_tmsvc_sl_mod.c:70-98 | over any passes a timer's fate does not depend on the others |
| Timers.FiringsAddUp | fev/fev_tmsvc_sl_mod.c:64-107 | the callbacks called over any passes are those of the single timers |
| Timers.DeletedNeverFires | fev/fev_timer_service.c:180-195 | over any passes after it was deleted a timer is as if it had never been: nothing fires for it, and all others are served as without it |
| Timers.TimerNode.Timeout | fev/fev_tmsvc_modules.c:9-29 | computes the timeout of the node as it stands |
| Timers.TimerNode.Rearm | fev/fev_tmsvc_sl_mod.c:82-89 | leaves the re-armed timer in the node |
| Timers.TimerNode.Resetn | fev/fev_timer_service.c:210-222 | a negative expiration is refused; otherwise the deadline counts from now |
| Timers.TimerList.Add | fev/fev_timer_service.c:147-178 | refused exactly for negative times or no callback; otherwise a fresh timer at the end of the list |
| Timers.TimerList.Process | fev/fev_tmsvc_sl_mod.c:64-108 | the two-list loop is one pass: contents, count of expired timers and identity and order of the survivors |
| Timers.TimerList.Top | fev/fev_tmsvc_sl_mod.c:133-161 | the first valid timer with the least deadline in milliseconds, none exactly when none is valid |
| Timers.MillisOfDeadline | fev/fev_tmsvc_modules.h:22-23 | those milliseconds are the deadline rounded down |
| TimerCallbacks.OrderKept | fev/fev_tmsvc_sl_mod.c:70-98 | whatever callbacks delete, reset or add, survivors keep their order and no timer is served twice in a pass |
| TimerCallbacks.DeletedIsDropped | fev/fev_tmsvc_sl_mod.c:73-76 | a timer that a callback deletes before its turn does not fire and does not survive the pass |
| TimerCallbacks.DeleteTakesEffect | fev/fev_timer_service.c:180-195 | a callback that deletes a timer whose turn is still to come keeps it from firing and surviving, whatever follows |
| TimerCallbacks.ServedAsFound | fev/fev_tmsvc_sl_mod.c:70-98 | a timer no callback is about is served as in a plain pass |
| TimerCallbacks.ResetTakesEffect | fev/fev_timer_service.c:197-208 | a timer reset before its turn is served in the same pass by its new start |
| TimerCallbacks.ResetnTakesEffect | fev/fev_timer_service.c:210-222 | and by its new expiration |
| TimerCallbacks.AddTakesEffect | fev/fev_tmsvc_sl_mod.c:111-121 | a timer added by a callback is served in the same pass, behind all others |
| TimerCallbacks.OwnReset | fev/fev_tmsvc_sl_mod.c:79-97 | a timer that resets itself in its callback is next due two intervals later, and destroyed if it has none |
| TimerCallbacks.SilentIsPass | fev/fev_tmsvc_sl_mod.c:64-108 | with callbacks that leave the service alone this is the pass of TimerList.Process |
| TimerCallbacks.StartedIsDueIff | fev/fev_tmsvc_modules.c:9-29 | a timer started during a pass is due in it if and only if it has no delay and the clock has not moved |
| TimerCallbacks.PatientPassEnds | fev/fev_tmsvc_sl_mod.c:70-98 | if callbacks start nothing that is already due, the pass ends after a number of timers known beforehand |
| TimerCallbacks.PassGoesOn | fev/fev_tmsvc_sl_mod.c:70-98 | if they add timers that are due, a pass that fires something can go on for any number of timers |
| TimerCallbacks.PassEndsIff | fev/fev_tmsvc_sl_mod.c:70-98 | where callbacks may add timers of one kind, the length of a pass that fires something is bounded if and only if that kind has a delay or the clock has moved |

## Left out

- FlogPipeline.PublishInv: a copied publish is one update of the tail, or two when it lands; the free size and the head that decide between copy and place are read at one moment. `flog_write` publishes in four pieces (flog/flog.c:508-527), and the fetcher counts an id before it checks the body; nothing is claimed for that path. What the fetcher does with bytes it misreads is not modelled.
- FlogPipeline.ReleaseInv: a released record leaves the state, so what its thread still writes to it afterwards is no step; `FlogWindow.EarlyReleaseIff` says when that happens.
- FlogRing.LogRing.FillAsyncMsg: messages with their debug text fit LOG_MAX_LEN_PER_MSG, ids stay below the sign bit of an int, header lengths fit the 16-bit length field; what a longer text leaves in its frame is outside (`FlogRing.FillFitsIff` says when it still fits).
- FlogRing.LogRing.FetchMsg: the fetcher's scratch array is taken to be as large as the largest frame.
- FlogFetcher.Fetcher.FinishAndExit: interrupted and timed out waits, flushing and rolling of files are not modelled; a write always takes all bytes. The methods of the fetcher run while no producer moves and no thread is between two tail writes.
- Fmbuf.Fmbuf.Alloc: array mode, head <= tail, as documented; the same holds for Rewind. Returned pointers are positions or bytes.
- Fmbuf.Fmbuf.Push: a null data pointer with a positive size is not modelled; empty data stand for no data.
- Fmbuf.Fmbuf.HeadSeek: offsets stay inside the cells, as callers must see to; the same holds for TailSeek.
- FmbufSpsc.PoppedIsPrefix: sequential consistency, and one atomic read of the other side's index per operation.
- Fhash.Fhash.Set: keys and values are byte strings and keys compare by equality; the caller's key does not alias node storage; sizes have no upper bound.
- Fhash: `index_used`, which is counted up on the size and down on the use of a bucket, `fhash_profile`, `fhash_foreach` and the user's replacement functions.
- FhashCost.AmortisedCost: runs without iterators and without explicit rehashing; `FhashCost.CostlyCatchingUp` shows that the bound fails after a release.
- Fcache.Fcache.SetObj: for a cached key, objects of the same size, or deletes with a size not above the old one. A growing update may evict the node that is being updated, and updates of another size leave a wrong total (`FcacheList.FcList.UpdateNode` states exactly which). Once the index is wrong, only dropping is followed further.
- Fcache.Fcache.GetObj: null arguments and `fcache_destroy` are left out.
- FlistSort.FList.Push: null data, refused by the code, have no counterpart.
- FlistSort.FList.Pop: the memory of the old dummy node is not freed here; `FlistSpsc` models freeing.
- FlistSort.FList.Sort: needs a comparison that never puts each of two elements above the other; `flist_foreach` and the iterators of flist are left out.
- FlistSpsc.QueueIsFifo: sequential consistency; the barrier in `flist_push` is not modelled separately.
- ThreadPool.RunsInPostingOrder: every slot of the pool is filled and there is one poster; a push is one step, or two when it lands, and a pop is one; what a misled worker does is not modelled. `fthpool_add_thread` and thread creation are left out. Nobody posts TH_RELEASE in the repository.
- Timers.TimerList.Process: callbacks leave the timer list alone (`TimerCallbacks` drops that, on values); arithmetic does not overflow a long.
- TimerCallbacks.OrderKept: timers are named by their place in the list, and a callback that uses a node after it was freed has no counterpart.
- Timers.TimerNode.Resetn: failures of the clock are left out; a plain reset differs only in keeping the expiration.
- fdlist: its size totals, which `fdlist_update_node_size` gets wrong; the timer model needs only the order.
- The event loop, its buffers, connections and listeners, fnet, ftime, fco, fconf and the typed wrappers of fhash: system calls, or thin over the cores above.
