# Verified models of libwebsockets' broadcast and list-streaming protocols

libwebsockets ships protocol plugins and test programs in which many connections share state: a
broadcast ring with one tail per reader, lists that are streamed to every client in fragments while
they change, a newline-expanding byte pipe, an echo checker. This project models that code in Dafny
and proves what it promises over every run, and, where the code does not keep a promise, exactly when
it does.

Each protocol has a value-level description (`...Spec`), in which a callback is a function on states,
an inductive invariant, and runs over any sequence of callbacks, all along which the invariant is
proved to hold. Beside it stand the callbacks as they run: classes with the
source's fields, loops over linked lists and rings, each method proved to change the view of the
objects as the specification says.

| file | models |
|---|---|
| `Ring.dfy` | `lib/misc/lws-ring.c`, the multi-tail ring buffer, on an array |
| `MirrorSpec.dfy`, `MirrorRuns.dfy`, `MirrorTheorems.dfy` | `plugins/protocol_lws_mirror.c`: one instance, every run of a vhost, what follows |
| `MirrorLaws.dfy`, `MirrorHistory.dfy` | the same protocol: what each callback must do, and where what a session is sent comes from over every run |
| `Mirror.dfy`, `MirrorVhost.dfy` | the same callbacks on the heap: sessions, rings, instances and the vhost's list of them |
| `StatusSpec.dfy`, `StatusTheorems.dfy`, `Status.dfy` | `plugins/protocol_lws_status.c`, every run, and on its linked list |
| `ScanSpec.dfy`, `Scan.dfy`, `ScanWalk.dfy` | `plugins/protocol_esp32_lws_scan.c`: merging and sorting, on its linked list, and the streamed list |
| `GroupWalk.dfy` | `plugins/protocol_esp32_lws_group.c`: the streamed list of members |
| `SshdSpec.dfy`, `SshdRuns.dfy`, `SshdOverruns.dfy`, `Sshd.dfy` | `test-apps/test-sshd.c`: newline expansion and terminal modes, every run of the two output streams, runs that overrun, and the calls on their rings |
| `Fulltext.dfy` | `plugins/protocol_fulltext_demo.c`: a JSON reply cut up by buffer space |
| `Client.dfy` | `test-apps/test-client.c`: the generator and the echo check |
| `Fragments.dfy`, `ListText.dfy`, `Wrappers.dfy` | a receiver of fragmented messages (section 5.4 of RFC 6455), comma-separated lists, options |

How the model reads the source:

- Ring positions are element offsets; the C code's byte offsets are these times `element_len`. Every
  element inserted has a sequence number, its index in a ghost history, and each tail is proved to be
  the offset of its owner's number.
- The mirror's state records for each session what it was sent, whether rx is on, whether the timeout
  runs and whether a WRITEABLE callback is pending. `frees` records the payloads released, in order.
- A socket is a parameter of each WRITEABLE callback (`Pipe`): it takes some messages and then reports
  itself choked or fails. Failing allocations are parameters too. After a failed write only CLOSED
  follows.
- `MirrorVhost.VhostData` carries the run it follows as a ghost field and keeps it reachable, so everything
  proved of reachable states holds of the objects.
- Fragments are sequences of tokens, not bytes: what is proved is which entries, separators and
  brackets a client gets and in which order.
- Integers are unbounded except in `Client`, where the generator's registers are 32 bits wide. Division
  of the signal sums truncates towards zero as in C.

Where code and comments disagree the code is followed:

- A ring made for `count` elements holds one fewer, and a ring of bytes with a single free byte reports
  none (`Ring.Ring.CountFree`). The mirror's 32-element queue thus holds 31 messages.
- The mirror resumes rx at `RXFLOW_MAX` free elements, not only above.

What turned out not to hold, each with the exact condition:

- A newcomer to a mirror instance is not asked to write. The rule that whoever is behind has asked
  survives a join exactly when the ring is empty (`MirrorTheorems.JoinKeepsAllAskedIff`); joining a
  full instance can stall it for good (`MirrorTheorems.SilentJoinerFreezes`, and
  `MirrorTheorems.FloodDisablesRx` for a run that gets there).
- Names are cut when stored but not when looked up (`MirrorTheorems.RejoinFindsIff`,
  `MirrorTheorems.JoinKeepsNamesIff`, `MirrorTheorems.LongNamesPart`).
- The status header counts sessions that have left (`StatusTheorems.HeaderCountsDeparted`), and a
  message has a stray comma exactly when the entry to come next had left after another was written
  (`StatusSpec.ListingGrammarIff`, over every run `StatusTheorems.WellFormedIff`, and
  `StatusTheorems.StrayCommaReachable` for a run).
- The access-point sort does not end exactly when some average is positive (`ScanSpec.SortEndsIff`).
- stdout and stderr share one owed-CR flag: a call keeps the streams apart exactly when no CR is owed to
  the other one (`SshdSpec.SharedFlagIff`). A call also stays inside its range of the ring exactly unless
  a CR is owed and the range is one byte (`SshdRuns.CallStaysInsideIff`), and that happens:
  `SshdOverruns.OverrunReachable` with a CR the other stream owes, `SshdOverruns.OwnOverrunReachable` with
  the stream's own. It takes a call that found a CR owed to the other stream, so reading one stream only
  is safe (`SshdRuns.OverrunNeedsCrossing`, `SshdRuns.OneStreamStaysInside`).
- The loop over terminal modes stays inside them exactly when every group it reaches is whole
  (`SshdSpec.ParseStaysInsideIff`).
- A group message marked to be kept is the list it was about exactly when, as its last member was written,
  what had been written before was just what then preceded the cursor (`GroupWalk.MessageIsListIff`); a
  change that leaves the cursor on the list goes unnoticed (`GroupWalk.UnnoticedChange`).
- The full-text reply is well formed exactly when it has at most one path and not both kinds of results
  (`Fulltext.WellFormedIff`).

## Model

| member | source | states |
|---|---|---|
| `Ring.Ring.constructor` | lib/misc/lws-ring.c:28-51 | a new ring holds nothing and has its oldest tail at the head |
| `Ring.Ring.CountFree` | lib/misc/lws-ring.c:70-98 | the free count is the capacity, one slot less than the buffer, minus what is between oldest tail and head; a lone free byte counts as none |
| `Ring.Ring.CountWaiting` | lib/misc/lws-ring.c:100-124 | for any reader's tail, how many elements were inserted after the ones it has read |
| `Ring.Ring.GetElement` | lib/misc/lws-ring.c:254-264 | a tail's next element is the one with its owner's sequence number, or none when it has read all |
| `Ring.Ring.Insert` | lib/misc/lws-ring.c:157-196 | across the wrap, as many of the elements as fit are appended to the history, in order, and no waiting element is overwritten |
| `Ring.Ring.Consume` | lib/misc/lws-ring.c:198-225 | a private tail advances by the smaller of the maximum and what is waiting, and still denotes its sequence number |
| `Ring.Ring.ConsumeSingle` | lib/misc/lws-ring.c:198-252 | with no private tail the elements handed out are exactly the oldest ones of the history, across the wrap, and are released, through the destroy callback if there is one |
| `Ring.Ring.UpdateOldestTail` | lib/misc/lws-ring.c:266-279 | elements are destroyed from the old oldest tail up to the new one, each once and in order, and no waiting one is touched |
| `Ring.Ring.Destroy` | lib/misc/lws-ring.c:53-68 | destroying the ring leaves every element ever inserted destroyed exactly once, in order of insertion |
| `Ring.Ring.NextLinearInsertRange` | lib/misc/lws-ring.c:126-149 | the range starts at the head, is free, and ends where the ring is full or the buffer wraps; none when nothing fits |
| `Ring.Ring.Poke` | lib/misc/lws-ring.c:126-149 | writing into that range changes no element in the ring |
| `Ring.Ring.BumpHead` | lib/misc/lws-ring.c:151-155 | moving the head over the range appends what was written there to the history |
| `Ring.LaidOutAppend` | lib/misc/lws-ring.c:170-195 | elements copied behind others, wrapping at the end of the buffer, extend the stored sequence |
| `Ring.LaidOutRetire` | lib/misc/lws-ring.c:273-278 | overwriting the oldest slot leaves the rest of the stored sequence in place, across the wrap |
| `MirrorSpec.MinTailExists` | plugins/protocol_lws_mirror.c:118-127 | any non-empty list of readers has one no other is behind, whatever their order |
| `MirrorSpec.MoveOldestKeeps` | plugins/protocol_lws_mirror.c:132-166 | moving the oldest tail up to the slowest reader keeps flow control, fair timeouts and every reader's position |
| `MirrorSpec.UpdateWorstTailKeeps` | plugins/protocol_lws_mirror.c:110-167 | recomputing the oldest tail makes it the slowest reader's, never moves it back, loses no reader and keeps the instance's invariant |
| `MirrorSpec.AttachKeeps` | plugins/protocol_lws_mirror.c:277-285 | a newcomer at the oldest tail keeps the invariant, and makes the oldest tail somebody's again |
| `MirrorSpec.DetachKeeps` | plugins/protocol_lws_mirror.c:308-319 | when one of several readers leaves, the oldest tail catches up with the slowest of the rest |
| `MirrorSpec.WrittenGood` | plugins/protocol_lws_mirror.c:365-405 | whatever the socket takes, a reader stays in step with the log, and only one that was at the oldest tail and wrote can leave it unheld |
| `MirrorSpec.WriteableKeeps` | plugins/protocol_lws_mirror.c:359-420 | the invariant survives a WRITEABLE callback on any socket behaviour, failed writes included |
| `MirrorSpec.ReceiveKeeps` | plugins/protocol_lws_mirror.c:422-458 | it survives a received message, stored, dropped for lack of room or of memory, and nobody's reading is disturbed |
| `MirrorRuns.FindName` | plugins/protocol_lws_mirror.c:236-244 | the search finds the first instance of that name, or none goes by it |
| `MirrorRuns.ReplaceConserves` | plugins/protocol_lws_mirror.c:110-167 | what the oldest tail passes is freed, what it does not is still held: no payload is lost or doubled |
| `MirrorRuns.RetireConserves` | plugins/protocol_lws_mirror.c:322-335 | destroying an instance frees exactly the payloads it held |
| `MirrorRuns.StoreConserves` | plugins/protocol_lws_mirror.c:432-451 | a message that is stored is held once, one that is dropped not at all |
| `MirrorRuns.ApplyKeeps` | plugins/protocol_lws_mirror.c:189-469 | every callback of every connection keeps the vhost's invariant: sound instances, none empty, one place per connection, every payload freed once or held once |
| `MirrorRuns.AnyRun` | plugins/protocol_lws_mirror.c:189-469 | any sequence of callbacks of any number of connections makes a run: none ever meets a state the next one is not defined for |
| `MirrorRuns.RunKeeps` | plugins/protocol_lws_mirror.c:189-469 | the invariant holds all along every run |
| `MirrorTheorems.BroadcastAgrees` | plugins/protocol_lws_mirror.c:365-390 | total-order broadcast: in every reachable state a session has been sent exactly the accepted messages from where it joined to its tail, in order and once, so any two sessions agree on what both were sent |
| `MirrorTheorems.OldestIsSlowest` | plugins/protocol_lws_mirror.c:88-108 | in every reachable state without a failed write the ring's oldest tail is the minimum of the readers' tails |
| `MirrorTheorems.ShortcutRefines` | plugins/protocol_lws_mirror.c:103-106 | skipping the recomputation for a session that was not at the oldest tail gives the same state as always recomputing |
| `MirrorTheorems.Hysteresis` | plugins/protocol_lws_mirror.c:36-39 | while rx is enabled there is room for RXFLOW_MIN messages and every session may receive; while it is disabled less than RXFLOW_MAX is free and somebody still has unread messages, failed writes or not; so messages are dropped for lack of room only while disabled |
| `MirrorTheorems.TimeoutHitsOnlySlowest` | plugins/protocol_lws_mirror.c:148-164 | a session on the 3s timeout has unread messages and no other reader is behind it |
| `MirrorTheorems.UnreadIsNotFreed` | plugins/protocol_lws_mirror.c:179-188 | a message some session has yet to read is allocated and has not been freed, over all instances |
| `MirrorTheorems.FreedOnce` | plugins/protocol_lws_mirror.c:179-188 | no payload is freed twice, and once all connections have left each was freed exactly once |
| `MirrorTheorems.OneInstanceEach` | plugins/protocol_lws_mirror.c:232-335 | a connection that was accepted and has not closed is attached in exactly one place, any other in none; there are never more than three instances, and none without a connection |
| `MirrorTheorems.JoinKeepsAllAskedIff` | plugins/protocol_lws_mirror.c:277-285 | after a join whoever is behind has asked for a WRITEABLE callback if and only if that was so before and the ring was empty |
| `MirrorTheorems.TakeStaysFrozen` | plugins/protocol_lws_mirror.c:397-411 | while the newest session sits unasked at the oldest tail, no write or departure of another session moves that tail or enables rx |
| `MirrorTheorems.SilentJoinerFreezes` | plugins/protocol_lws_mirror.c:277-285 | joining while rx is disabled and staying silent freezes the instance for every sequence of writes, failures and departures of the others, and the newcomer is never put on the timeout |
| `MirrorTheorems.FloodDisablesRx` | plugins/protocol_lws_mirror.c:448-451 | a reachable state with any number of unread messages up to the capacity, all as sent, rx being disabled exactly from the 28th on |
| `MirrorTheorems.RejoinFindsIff` | plugins/protocol_lws_mirror.c:236-269 | a second connection finds the instance the first one created under a name exactly when the name has at most 28 characters |
| `MirrorTheorems.JoinKeepsNamesIff` | plugins/protocol_lws_mirror.c:266-269 | a join leaves instance names distinct exactly when it creates none or the cut name is not in use |
| `MirrorTheorems.LongNamesPart` | plugins/protocol_lws_mirror.c:236-269 | two connections asking for the same longer name get two instances of one name |
| `MirrorTheorems.NamesDistinct` | plugins/protocol_lws_mirror.c:236-269 | over any run in which only short names are asked for, no two instances share a name |
| `MirrorLaws.ReceivedLaw` | plugins/protocol_lws_mirror.c:422-458 | the message, with its text, is added to the log of its sender's instance if there is room and memory, and to no other; rx goes off for all sessions when fewer than RXFLOW_MIN are then free and stays otherwise; unless memory ran out all are asked to write; no reading and no timeout changes |
| `MirrorLaws.EstablishedLaw` | plugins/protocol_lws_mirror.c:205-291 | a new connection joins the first instance of the name it asks for, at its oldest tail, and no other instance changes; failing that one is created for it alone under the name cut to 28 characters; failing that nothing changes |
| `MirrorLaws.WrittenAtLaw` | plugins/protocol_lws_mirror.c:359-420 | the session is sent the next messages, all there are or as many as the socket takes and at least one, asks again for the rest and is broken exactly if the socket fails with some left; other sessions' reading and other instances do not change; the oldest tail is recomputed exactly if it was there and wrote |
| `MirrorLaws.ClosedLaw` | plugins/protocol_lws_mirror.c:293-338 | the other sessions stay in order and the oldest tail is recomputed over them, or with the last session the instance leaves the list |
| `MirrorLaws.UpdateWorstTailLaw` | plugins/protocol_lws_mirror.c:110-167 | the oldest tail becomes the slowest reader's; if it moved, the readers at it with something to read, and no others, are put on the timeout, and rx resumes for all if it was off and RXFLOW_MAX are free; if not, nothing changes |
| `MirrorLaws.MovedLaw` | plugins/protocol_lws_mirror.c:135-164 | over reachable steps: when a callback moves an instance's oldest tail, the working sessions on the timeout are exactly those at it with something to read, and rx is on exactly if it was or RXFLOW_MAX are free |
| `MirrorHistory.Origin` | plugins/protocol_lws_mirror.c:189-469 | every instance after a step is one there was before, with the message that reached it and only connections it had or that joined it by its name, or was created by the step |
| `MirrorHistory.LogIsHeard` | plugins/protocol_lws_mirror.c:432-446 | over every run an instance's log is the texts its working connections sent while it had room and memory, in order and once |
| `MirrorHistory.SentIsHeard` | plugins/protocol_lws_mirror.c:365-390 | so over every run the texts a session was sent are the stretch of those from when it joined as far as it has read |
| `MirrorHistory.InstanceIsAsAsked` | plugins/protocol_lws_mirror.c:220-270 | over every run an attached connection is in an instance that goes by the name it asked for, cut to 28 characters |
| `Mirror.Pss.WriteNext` | plugins/protocol_lws_mirror.c:365-390 | one turn of the write loop sends the message with the tail's number; the NULL-payload branch is never taken |
| `Mirror.Pss.Drain` | plugins/protocol_lws_mirror.c:365-390 | the write loop sends, in order, as many waiting messages as the socket takes, and fails exactly when the socket does while messages remain |
| `Mirror.MirrorInstance.RxflowInstance` | plugins/protocol_lws_mirror.c:76-86 | all sessions of the instance, and the instance, change rx state together and nothing else changes |
| `Mirror.MirrorInstance.CallbackAllOnWritable` | plugins/protocol_lws_mirror.c:169-177 | every session of the instance has a pending WRITEABLE callback |
| `Mirror.MirrorInstance.FindWorst` | plugins/protocol_lws_mirror.c:118-127 | comparing wrapped distances finds the least sequence number among the tails |
| `Mirror.MirrorInstance.TimeSlowest` | plugins/protocol_lws_mirror.c:153-164 | the sessions put on the timeout are exactly those whose sequence number is the worst, though offsets are compared |
| `Mirror.MirrorInstance.UpdateWorstTail` | plugins/protocol_lws_mirror.c:110-167 | the loops and the ring together change the instance as specified, and the result says whether the oldest tail moved |
| `Mirror.MirrorInstance.Attach` | plugins/protocol_lws_mirror.c:277-285 | the newcomer is first on the list and starts at the oldest tail |
| `Mirror.MirrorInstance.Detach` | plugins/protocol_lws_mirror.c:302-319 | one session is taken off the list and the oldest tail recomputed over the rest |
| `Mirror.MirrorInstance.Receive` | plugins/protocol_lws_mirror.c:422-458 | on the heap a message is accepted exactly when there is room and memory, and the whole new state is the specified one |
| `Mirror.MirrorInstance.Store` | plugins/protocol_lws_mirror.c:440-446 | inserting after the free count was seen non-zero always succeeds: the drop after a failed insert is never taken |
| `Mirror.MirrorInstance.Writeable` | plugins/protocol_lws_mirror.c:359-420 | on the heap the callback turns the instance into the specified one and fails exactly when a write fails |
| `MirrorVhost.VhostData.Established` | plugins/protocol_lws_mirror.c:205-291 | on objects that follow a run, a new connection's callback leads to objects that follow that run one step further: it joins the first instance of the name, creates one, or is refused, and the result says which |
| `MirrorVhost.VhostData.Closed` | plugins/protocol_lws_mirror.c:293-338 | so does CLOSED: the session leaves its instance, or with the last one the instance leaves the list; a refused session changes nothing |
| `MirrorVhost.VhostData.ServerWriteable` | plugins/protocol_lws_mirror.c:359-420 | so does SERVER_WRITEABLE, which fails exactly when it leaves the session broken |
| `MirrorVhost.VhostData.Received` | plugins/protocol_lws_mirror.c:422-458 | so does RECEIVE: the very message is added to the log of the instance, if there is room and memory |
| `MirrorVhost.VhostData.Unlink` | plugins/protocol_lws_mirror.c:322-335 | the instance is off the list, the others are as before, and every message it was ever given has been destroyed exactly once |
| `MirrorVhost.CallbackGoes` | plugins/protocol_lws_mirror.c:293-296 | in a reachable state the instance and position a session is at are the ones its callbacks concern |
| `StatusSpec.NudgeKeeps` | plugins/protocol_lws_status.c:63-77 | however the list changed, telling a session so keeps it correct: idle ones start over, busy ones will |
| `StatusSpec.ListingKeeps` | plugins/protocol_lws_status.c:147-182 | writing an entry, or finding that the next one has left, keeps the text right as far as it goes or marks it to be redone |
| `StatusSpec.ListingGrammarIff` | plugins/protocol_lws_status.c:147-182 | for every session in the list state the text stays in the grammar of a list if and only if the next entry is still there or none was written yet |
| `StatusSpec.FinalKeeps` | plugins/protocol_lws_status.c:183-194 | closing a message either completes the current list or starts over |
| `StatusSpec.ApplyKeeps` | plugins/protocol_lws_status.c:106-224 | joins, leaves and turns, with failing writes, keep every session's invariant |
| `StatusSpec.RunKeeps` | plugins/protocol_lws_status.c:106-224 | that invariant holds all along any sequence of joins, leaves and turns |
| `StatusSpec.RenderLists` | plugins/protocol_lws_status.c:133-186 | of a message about a list the count and the peers can be read back, each once and in order |
| `StatusTheorems.EventuallyConsistent` | plugins/protocol_lws_status.c:183-207 | whenever a session has nothing more to send, the last message it completed is the list of live sessions as it is now, in order |
| `StatusTheorems.FramesAreLegal` | plugins/protocol_lws_status.c:131-207 | every session's frames are legal fragments at all times, a session with more to send has asked to, and the list state is never entered without a next entry |
| `StatusTheorems.TurnProgresses` | plugins/protocol_lws_status.c:131-207 | each successful turn of a busy session brings it closer to being idle |
| `StatusTheorems.Settles` | plugins/protocol_lws_status.c:131-207 | once joins and leaves stop, a session is idle and up to date after at most 2n+4 turns of its own for n sessions, however turns interleave |
| `StatusTheorems.WellFormedIff` | plugins/protocol_lws_status.c:152-194 | over every run, each message a session was sent is well formed if and only if its next entry had not left after another was written |
| `StatusTheorems.StrayCommaReachable` | plugins/protocol_lws_status.c:152-170 | a run of two sessions in which one is sent a message with a stray comma |
| `StatusTheorems.HeaderCountsDeparted` | plugins/protocol_lws_status.c:114 | over any run the count told to clients is the number of live sessions plus the number that left |
| `Status.Vhd.TriggerResend` | plugins/protocol_lws_status.c:63-77 | the loop over the linked list treats every live session, and no other, as specified |
| `Status.Vhd.Established` | plugins/protocol_lws_status.c:106-129 | the newcomer is linked in front and the whole new state is the specified one |
| `Status.Vhd.Unlink` | plugins/protocol_lws_status.c:215-221 | rewriting the one link that leads to a session takes it and nothing else off the list, which stays linked; an absent one changes nothing |
| `Status.Vhd.Closed` | plugins/protocol_lws_status.c:213-224 | on the linked list CLOSED leads to the specified state |
| `Status.Vhd.Listed` | plugins/protocol_lws_status.c:156-163 | the walk says whether a session is still on the list |
| `Status.Vhd.Entry` | plugins/protocol_lws_status.c:147-182 | one list entry, or giving up when the next session left, as specified, without following a stale link |
| `Status.Vhd.Writeable` | plugins/protocol_lws_status.c:131-207 | on the linked list SERVER_WRITEABLE leads to the specified state, failing writes included |
| `ScanSpec.SortIsStable` | plugins/protocol_esp32_lws_scan.c:309-335 | picking the last of the worst and prepending keeps the entries of each average in their order |
| `ScanSpec.SortPermutes` | plugins/protocol_esp32_lws_scan.c:309-335 | no entry is lost or doubled by sorting |
| `ScanSpec.SortSorts` | plugins/protocol_esp32_lws_scan.c:309-335 | averages never increase along the sorted list |
| `ScanSpec.StableSortIsUnique` | plugins/protocol_esp32_lws_scan.c:309-335 | there is only one list that is sorted and keeps every average's entries in order: the result is the stable sort |
| `ScanSpec.SortEndsIff` | plugins/protocol_esp32_lws_scan.c:314-333 | the loop empties the old list after some number of turns if and only if no average is positive |
| `ScanSpec.TruncDivWithin` | plugins/protocol_esp32_lws_scan.c:253-260 | the truncated quotient of a sum of n values in a range is in that range, for either sign |
| `ScanSpec.TruncDivIs` | plugins/protocol_esp32_lws_scan.c:259 | the quotient has the dividend's sign or is zero and leaves over less than the divisor: it is rounded towards zero |
| `ScanSpec.FewAddUp` | plugins/protocol_esp32_lws_scan.c:277-282 | up to 128 samples make an entry whose sum and count are theirs, otherwise as the first made it |
| `ScanSpec.FewAverage` | plugins/protocol_esp32_lws_scan.c:253-282 | what is reported of them is their sum divided by their number, rounded towards zero |
| `ScanSpec.OneMoreSample` | plugins/protocol_esp32_lws_scan.c:277-282 | whatever was heard before, one more sample is added and counted; only a count of 128 becomes 65, its sum halved first, rounded towards zero |
| `ScanSpec.AverageWithinSamples` | plugins/protocol_esp32_lws_scan.c:277-282 | for any number of samples, halvings included, the average stays between the least and the greatest sample |
| `ScanSpec.InsertTrimKeeps` | plugins/protocol_esp32_lws_scan.c:267-338 | one more result keeps the list at most 12 long, sorted, without duplicates and with counts of at most 128, also when memory runs out |
| `ScanSpec.FindIff` | plugins/protocol_esp32_lws_scan.c:273-276 | an entry is found exactly if one has both the same name and the same address |
| `ScanSpec.ResultIsListed` | plugins/protocol_esp32_lws_scan.c:267-338 | afterwards a result is on the list unless it was new and there was no memory; a new one has an entry of its own, and the list has grown by it after being cut to eleven |
| `ScanSpec.DroppedIff` | plugins/protocol_esp32_lws_scan.c:267-338 | a result makes an access point leave the list if and only if it is about one that was not on it and eleven others are ahead, also when memory runs out |
| `ScanSpec.DiscardsWeakest` | plugins/protocol_esp32_lws_scan.c:267-338 | of the access points on the list, none that a result makes leave was stronger than one that stays |
| `ScanSpec.Known` | plugins/protocol_esp32_lws_scan.c:371-383 | after any sequence of results the list is at most 12 long, sorted, without duplicates and with bounded counts |
| `ScanSpec.LatestIsKnown` | plugins/protocol_esp32_lws_scan.c:371-383 | after any sequence of results the access point of the last one, if memory did not run out, is on the list |
| `ScanSpec.EntrySince` | plugins/protocol_esp32_lws_scan.c:273-307 | each entry adds up all results about it from one that found it absent, and it has been on the list after every result since |
| `ScanSpec.ReportedWithinHeard` | plugins/protocol_esp32_lws_scan.c:253-338 | so the strength reported for an access point is within every bounds that hold of those heard since the result that last put it on the list |
| `Scan.KnownAps.FindMatch` | plugins/protocol_esp32_lws_scan.c:273-276 | the walk stops at the first entry of the same name and address |
| `Scan.KnownAps.MergeMatch` | plugins/protocol_esp32_lws_scan.c:273-286 | the matching entry is updated in place, everything else stays, or nothing matched |
| `Scan.KnownAps.TrimExcess` | plugins/protocol_esp32_lws_scan.c:289-297 | deleting while walking keeps exactly the first 11 entries |
| `Scan.KnownAps.FindWorst` | plugins/protocol_esp32_lws_scan.c:318-324 | where no average is positive the search, which starts from 0, finds the last entry of least average and the link to it |
| `Scan.KnownAps.Sort` | plugins/protocol_esp32_lws_scan.c:309-335 | relinking the nodes one by one leaves exactly the same nodes linked, in stable sorted order |
| `Scan.KnownAps.InsertTrim` | plugins/protocol_esp32_lws_scan.c:267-338 | on the linked list one result leads to the specified list, also when no node can be allocated |
| `Scan.KnownAps.ScanFinished` | plugins/protocol_esp32_lws_scan.c:353-383 | a finished scan takes the linked list from what one sequence of results leads to, to what it leads to with the first ten records added |
| `ScanWalk.PageExtends` | plugins/protocol_esp32_lws_scan.c:723-756 | a page of up to six entries extends the text to the list's next prefix, separators included, and a short page ends it |
| `ListText.EntriesList` | plugins/protocol_esp32_lws_scan.c:730-755 | of a listing the entries can be read back, each once and in order, with one comma between any two |
| `ScanWalk.WriteableKeeps` | plugins/protocol_esp32_lws_scan.c:531-782 | every stage, with writes that may fail, keeps the message legal and, unless a scan finished meanwhile, right as far as it goes, and a session with more to send has asked to |
| `ScanWalk.Settles` | plugins/protocol_esp32_lws_scan.c:531-782 | once no scan finishes any more, after 2n+10 turns for n access points a session is idle and was last sent the list |
| `ScanWalk.ListIsCurrent` | plugins/protocol_esp32_lws_scan.c:360-367 | over any mix of turns and finished scans frames are legal, and an idle session's last message is the list as it is now |
| `GroupWalk.FromAt` | plugins/protocol_esp32_lws_group.c:128-130 | looking a member up finds the rest of the list from it on |
| `GroupWalk.LastPageIff` | plugins/protocol_esp32_lws_group.c:144-175 | the page that ends the list completes the list's message if and only if what was written before is what precedes the cursor |
| `GroupWalk.WriteableKeeps` | plugins/protocol_esp32_lws_group.c:102-198 | whatever happened to the list, however many members fit a frame and whether or not the write fails, the text is what was written, a completed message is marked right, and a session with more to send has asked to |
| `GroupWalk.GoneCloses` | plugins/protocol_esp32_lws_group.c:126-142 | a message whose cursor has left the list is ended there, to be discarded |
| `GroupWalk.DiscardIsReissued` | plugins/protocol_esp32_lws_group.c:178-198 | a message to be discarded says so and is followed by a new one |
| `GroupWalk.Settles` | plugins/protocol_esp32_lws_group.c:102-198 | once the list stays as it is, after at most 5 more turns than there are members, with room for one in each, a session is idle; and if it was to begin or to discard a message, it was last sent the whole list |
| `GroupWalk.MessageIsListIff` | plugins/protocol_esp32_lws_group.c:124-186 | over any run frames are legal, and a completed message is the list it was about if and only if, as its last member was written, what had been written before was just what then preceded the cursor |
| `GroupWalk.UndisturbedIsWhole` | plugins/protocol_esp32_lws_group.c:178-186 | a message begun and ended without a change in between is the whole list, marked not to be discarded |
| `GroupWalk.UnnoticedChange` | plugins/protocol_esp32_lws_group.c:126-142 | a change after which a message that is kept lists a member that is gone |
| `SshdSpec.ExpandConcat` | test-apps/test-sshd.c:508-517 | adding a CR after each LF distributes over concatenation |
| `SshdSpec.ExpandIs` | test-apps/test-sshd.c:508-517 | in the expansion every LF is followed by a CR, and it is longer by as many bytes as there are LFs |
| `SshdSpec.StripRestores` | test-apps/test-sshd.c:508-517 | taking out the CR behind each LF gives the input back |
| `SshdSpec.EmitExpands` | test-apps/test-sshd.c:505-517 | what the loop writes, followed by the CR it leaves owing, is the owed CR followed by the chunk expanded, and it is at most twice as long as the chunk, less if no CR was owed |
| `SshdSpec.FitsIff` | test-apps/test-sshd.c:485-517 | a chunk of the size asked for fits the room if and only if there is more than one byte of it or no CR is owed |
| `SshdSpec.WrittenExpands` | test-apps/test-sshd.c:505-523 | writing the owed CR early when there is room changes nothing in the stream |
| `SshdSpec.ChunkingDoesNotMatter` | test-apps/test-sshd.c:454-541 | however the child's output is cut up and whatever the rooms, what is written of it is the expansion of the whole, up to a CR still owed |
| `SshdSpec.SharedFlagIff` | test-apps/test-sshd.c:472-523 | a call that reads something for one stream leaves both faithful if and only if no CR was owed to the other |
| `SshdRuns.RoomIsOneIff` | test-apps/test-sshd.c:476-490 | the range is one byte long if and only if the head is at the last byte of the buffer and the ring is not full |
| `SshdRuns.CallStaysInsideIff` | test-apps/test-sshd.c:485-523 | a call stays inside its range if and only if not both a CR is owed, by either stream, and the range is one byte |
| `SshdRuns.IoLaw` | test-apps/test-sshd.c:476-536 | a call reads from the front of what is available, at least a byte if there is any and room for it, and adds its expansion to the stream's ring, up to the CR owed before and after; the other stream's ring does not change |
| `SshdRuns.OwedParity` | test-apps/test-sshd.c:485-523 | as long as a stream only finds its own CR owed, it owes one only with its head at an even offset |
| `SshdRuns.IoKeeps` | test-apps/test-sshd.c:454-541 | until a call finds a CR owed to the other stream, both streams stay faithful, and the stream that owes a CR has its head at an even offset |
| `SshdRuns.Run` | test-apps/test-sshd.c:166-541 | that holds over any interleaving of reads on both streams and sends, up to the call that overruns, if one does |
| `SshdRuns.OverrunNeedsCrossing` | test-apps/test-sshd.c:508-517 | an overrun takes an owed CR, a head at the last byte, and this or an earlier call that found a CR owed to the other stream |
| `SshdRuns.OneStreamStaysInside` | test-apps/test-sshd.c:508-517 | a run in which only one stream is read never overruns |
| `SshdRuns.UncrossedIsExpansion` | test-apps/test-sshd.c:166-541 | as long as no call found a CR owed to the other stream, for each stream the bytes sent on, then those in its ring, then the CR it owes, are its child output expanded |
| `SshdOverruns.OverrunReachable` | test-apps/test-sshd.c:472-517 | a run, with no stream read again before something of it was sent, that ends in a call that overruns for a CR the other stream owes |
| `SshdOverruns.OwnOverrunReachable` | test-apps/test-sshd.c:472-517 | such a run that ends in an overrun for a CR the stream itself owes, after it took one for the other at an odd offset |
| `SshdSpec.ParseRoundTrip` | test-apps/test-sshd.c:421-449 | any list of defined modes, encoded as in section 8 of RFC 4254 between any bytes, is read back exactly, the last mode about each flag deciding |
| `SshdSpec.ParseStaysInsideIff` | test-apps/test-sshd.c:421-431 | the loop reads nothing past the modes if and only if every five-byte group it gets to is whole |
| `Sshd.PtyModes` | test-apps/test-sshd.c:421-449 | the loop with its byte-by-byte argument computes that parse |
| `Sshd.Instance.PutAll` | test-apps/test-sshd.c:505-517 | given a chunk that fits, the expansion loop writes exactly the expansion into the ring's free range and nothing outside it |
| `Sshd.Instance.ChildIo` | test-apps/test-sshd.c:454-541 | on the two rings and the one flag a call does what the run says, and reports the overrun exactly when the loop would leave its range |
| `Sshd.Instance.Tx` | test-apps/test-sshd.c:166-188 | as many bytes as are wanted and there are come from the front of the stream's ring, in order and once, and count as sent on |
| `Fulltext.WellFormedIff` | plugins/protocol_fulltext_demo.c:154-229 | the reply nests and separates correctly if and only if it has at most one path and not both autocomplete entries and paths |
| `Fulltext.WalkPaths` | plugins/protocol_fulltext_demo.c:183-223 | the list of paths is well formed exactly for one path that is the first entry of the reply |
| `Fulltext.Pss.WriteAcs` | plugins/protocol_fulltext_demo.c:164-174 | entries go out until none is left or less than the headroom, and what is written plus what remains stays the same text |
| `Fulltext.Pss.WritePaths` | plugins/protocol_fulltext_demo.c:183-223 | the same for paths and their hits, resumed where the last buffer ended |
| `Fulltext.Pss.Writeable` | plugins/protocol_fulltext_demo.c:154-244 | one callback never overruns its buffer, writes the next part of the reply, and is final exactly when nothing remains; otherwise less remains |
| `Fulltext.RepliesAreWhole` | plugins/protocol_fulltext_demo.c:154-244 | for any buffer sizes the callbacks together write the one rendering, in at most as many callbacks as it has pieces |
| `Fulltext.ReplyIsRendering` | plugins/protocol_fulltext_demo.c:86-123 | from the start state that is the rendering of the search result |
| `Fulltext.RenderingIsRead` | plugins/protocol_fulltext_demo.c:86-229 | of the rendering the autocomplete entries, the paths and each path's hits can be read back: they are the search result's, each once and in order |
| `Client.StepsInjective` | test-apps/test-client.c:88-93 | neither register update maps two states to one |
| `Client.StepsUndone` | test-apps/test-client.c:88-93 | each register update has an inverse |
| `Client.YieldIs` | test-apps/test-client.c:95 | the byte changes in just the bits in which either register's low byte does |
| `Client.StreamBegins` | test-apps/test-client.c:55-96 | the first four bytes of the stream from the seed |
| `Client.NextInjective` | test-apps/test-client.c:85-96 | nor does a whole step of the generator |
| `Client.AliveForever` | test-apps/test-client.c:55-57 | from the seed no register ever becomes zero |
| `Client.PurelyPeriodic` | test-apps/test-client.c:85-96 | if the generator's state ever recurs the seed itself does: the stream has no run-in |
| `Client.EchoCheckedIff` | test-apps/test-client.c:431-445 | however the echo is cut up, no mismatch is reported if and only if the bytes received are the beginning of the stream, and then the block and byte counts add up to their number |
| `Client.CompleteIff` | test-apps/test-client.c:446-451 | everything is found received exactly when the right bytes of all the blocks came and no more |
| `Client.FillBlock` | test-apps/test-client.c:377-395 | a block holds the next 12288 bytes of the stream |
| `Client.CheckChunk` | test-apps/test-client.c:431-450 | comparing byte by byte with the second generator decides whether the chunk is the next part of the stream, and leaves the generator in step |
| `Client.CountBlocks` | test-apps/test-client.c:441-445 | whole blocks are moved from the byte count to the block count |

## Left out

- Locks, threads and the SMP case: callbacks are modelled as atomic steps.
- The wsi event loop: which callbacks come when is any sequence, except that a connection is established once and after a failed write only closes.
- MirrorVhost.VhostData.Closed: the session's link to its instance is passed in rather than stored in the session.
- Mirror.MirrorInstance.Attach: the sessions of an instance are a sequence of objects rather than linked through the objects; linked lists are modelled in Status and Scan.
- Mirror.MirrorInstance.TimeSlowest: the timeout is a flag, its expiry is the CLOSED callback that may follow.
- The URL argument that gives a mirror instance its name, and HTTP headers, peer names and times in the status entries.
- Fulltext.Pss.Writeable: entries are assumed to render to at most 240 bytes and the buffer to hold the header and 272 more, because a longer one is cut by snprintf in the middle.
- Scan.KnownAps.InsertTrim: asks for averages of at most 0, because with a positive one the sorting loop never ends.
- ScanSpec.InsertTrimKeeps: a result's strength is at most 0, as for any received signal.
- ScanWalk.WriteableKeeps: one session on values; the walk to the page on the linked list, device information, the autonomous-update message and the list of sessions are not modelled.
- GroupWalk.WriteableKeeps: one session on values; the members' linked list and the list of sessions are not modelled.
- Sshd.Instance.ChildIo: newline-expanding mode only, raw mode and a change of mode in mid-stream are not modelled; a call that overruns is reported and not followed.
- SshdRuns.Run: a stream may be read again before something of it was sent, which rx flow control prevents; the runs that overrun keep to it.
- The rest of test-sshd.c, the SSH protocol itself, and the search that fills the full-text result.
- Client.EchoCheckedIff: block and byte counts do not wrap at 32 bits, and the check goes on after everything was received.
- The HTTP, TLS, HTTP/2 and event-library code of lib/.
