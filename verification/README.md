# memberlist, verified in Dafny

memberlist keeps a list of cluster members by the SWIM gossip protocol with the Lifeguard
extensions. This project models the parts of it that carry its promises and proves those promises:

- **One member** (state.go, memberlist.go): what alive, suspect and dead messages, push/pull records,
  suspicion timers and local calls do to the entries, the timers, the incarnation counter, the
  broadcasts and the delegate's events. `Membership.dfy` says it on values; `MemberlistObject.dfy`
  has the objects as the code keeps them (nodeState objects shared by a list and a name index, timer
  objects, plain fields), and each of its methods is proved equal to the function on values.
- **Runs of one member** (`NodeRun.dfy`, `Progress.dfy`, `Prepared.dfy`): every interleaving of incoming messages,
  merges, probes, timer expiries, `UpdateNode`, `Leave` and `resetNodes`. The calls that look at the
  state under the lock and act on it later (the timer callback, a failed probe, `UpdateNode`,
  `Leave`) are two steps each, with anything in between.
- **What news does** (`Effects.dfy`): the exact effect of every message, record and local call on the
  entries, timers, broadcasts and events, case by case and without the functions that handle it.
- **Runs of a cluster** (`Cluster.dfy`): any number of members and a network that loses, duplicates
  and reorders messages and records.
- **Suspicion timers** (`Suspicion.dfy`) over discrete time.
- **The broadcast queue** (`Queue.dfy`, `QueueObject.dfy`, `QueueRun.dfy`): the tree, the name index
  and the tier-by-tier packing loop, and the books of every run.
- **The prober** (`Prober.dfy`) and **the packet hand-over** (`Handoff.dfy`).
- **Packets** (`Compound.dfy`, `Label.dfy`, `Security.dfy`, `Keyring.dfy`, `Packet.dfy`,
  `Budget.dfy`): compound messages, labels, encryption, the keyring, the way of a message through
  all layers and back, and how many bytes a packet takes.

## Reading the theorems

States of one member start after `setAlive`. Incoming messages are arbitrary, except that a version
array is empty or at least six bytes long (the code indexes six bytes). Successive steps have
increasing clock readings. Cluster runs have unique names, no restarts, protocol version 2 or
higher, non-zero ports and, where a counter is compared with its successor, no wrap-around of the
32-bit counter. Randomness, the clock, the delegates' verdicts and the suspicion timeout for the
current cluster size are parameters of every call. Logarithms are any strictly increasing function
that is zero at one. The cipher, the compression and the checksum are parameters; a faithful cipher
opens what it sealed and adds 16 bytes, and a faithful compression is undone by decompression. That
no other key on the ring opens a given packet is an assumption about that packet.

## What the code does otherwise than one might expect

- **Queue ids.** `deleteItem` resets the id generator when the tree is empty. The comment there calls
  that idle, but the tree is also empty while `queueBroadcast` has given the new item its id and
  removed the only old item, and while `GetBroadcasts` holds items to put back. Ids then repeat, and
  a later insertion silently replaces an item with an equal key: the item is neither queued nor
  finished (`SubmitCollision`, `GetCollision`). Nothing is lost at any point of a run exactly if no
  insertion before meets an equal key (`StepConserves`, `ConservedExactly`). A generator that never
  starts anew is enough for that, but not needed (`IdsInOrder`).
- **Refutation.** A refutation exceeds the accusation exactly if the accusation is not the largest
  32-bit number; accused at that number, the node answers with incarnation 0. That is the only way
  in which the local entry ever falls back (`LocalFallsExactly`).
- **Two halves.** A suspicion about the local node between the halves of `UpdateNode` or `Leave` makes
  the prepared message late: the new meta is never announced, or the node has left but stays alive
  in its own eyes (`UpdateLost`, `FarewellLost`).
- **Piggybacking.** `sendMsg` does not count the length slot of its own message, so a packet can
  exceed the buffer size by 2 bytes, and by 5 more with a checksum. Gossip can exceed it only by the
  checksum. `PiggybackedFits` and `GossipFits` say exactly when a packet keeps to it.
- **Removing a key** shifts, without the lock, the slice that a reader may be searching. A reader that
  is past the removed key can skip the next one, so a packet is refused although its key is on the
  ring all the time (`RemovalHidesKey`). A reader that has looked at some places when the slice is
  shifted finds every other key exactly if it does not stand between the removed key and the last
  (`ReaderFindsOthers`; `SearchFinds` for every pace).
- **The version byte** of an encrypted packet is not part of what is sealed. A version 1 packet marked
  as version 0 is opened, and its plaintext is cut short or, if its last byte is beyond its length,
  makes the removal of the padding panic (`VersionNotSealed`; `CrashesExactly` for all packets).
- **Refutations** are queued under the address, all other broadcasts under the node's name.

## Model

| member | source | states |
|---|---|---|
| Cluster.IncarnationOwnership | state.go:915-939 | in every cluster run no entry about a member, at anyone, is above that member's own counter |
| Cluster.PendingOwnership | state.go:1233-1247 | nor is a message that a callback, probe or local call has prepared but not yet applied |
| Cluster.PacketOwnership | state.go:915-921 | nor is anything in flight; so a refutation is always just the next incarnation |
| Cluster.AgreementOfLiveViews | state.go:1119-1139 | two members that hold a third as alive at the same incarnation hold the same address, port, meta and versions |
| Cluster.NewsArrives | state.go:1074-1139 | a member that receives a peer's announcement at the peer's own counter, and neither ignores it nor turns its address away, then holds the peer at exactly that incarnation, as alive if it held it lower or not at all, and as alive only with what was announced |
| Cluster.ProvenanceOfBadNews | state.go:1295-1303 | held as left only if it called Leave; held as dead at an incarnation only if a suspicion timer expired at that incarnation somewhere |
| NodeRun.IndexAgreement | state.go:1021-1037 | in every run the list names exactly the entries of the index, each once |
| NodeRun.TimerIdentity | state.go:1226-1248 | timers exist exactly for suspects, and of all timers ever started an expiry takes effect exactly for the one in the map |
| NodeRun.EventReplay | state.go:1145-1155 | in every run the events replayed give what Members reports, and follow (Join Update* Leave)* for each name |
| NodeRun.StepInv | state.go:943-1340 | every step keeps the index, timer, stamp, event and self-liveness invariants |
| Progress.HandleProgress | state.go:1171-1205 | any message leaves a peer's entry alone or raises its pair of incarnation and rank, unless the address changed |
| Progress.LexicographicProgress | state.go:1076-1083 | over any stretch of a run no entry's pair decreases, the local one's as long as it does not wrap, and each change to a peer's raises it |
| Progress.LocalFallsExactly | state.go:915-921 | the local pair falls back exactly when an accusation at the largest incarnation is answered |
| Progress.AliveWins | state.go:1226-1247 | an alive message accepted between a callback's look and its dead report makes the report change nothing |
| Progress.HandleFrame | state.go:1253-1310 | a message changes what is held about its own subject only |
| Progress.RefutationBeats | state.go:915-921 | a refutation exceeds the accusation and the counter exactly when neither is the largest 32-bit number |
| Progress.RefutationWraps | state.go:815-817 | accused at the largest number, the answer is incarnation 0 |
| Progress.SelfPreservation | state.go:1093-1116 | until Leave the local entry stays alive, at or below the counter; every accusation is answered above it and above all earlier announcements, other news about oneself changes nothing |
| Progress.HandleTwice | state.go:1076-1116 | a message that has taken effect changes nothing the second time |
| Prepared.UpdateTakesEffect | memberlist.go:524-538 | a prepared update is taken over and announced exactly if the node has not left, the delegate agrees and the entry is not above it; else nothing changes |
| Prepared.UpdateLost | memberlist.go:524-538 | a suspicion in between: the new meta is never announced |
| Prepared.FarewellTakesEffect | memberlist.go:660-677 | a prepared farewell marks the entry as left and is announced exactly if the entry is alive and not above it; else nothing changes |
| Prepared.FarewellLost | memberlist.go:660-677 | a suspicion in between: the node has left, and its entry stays alive |
| Progress.MergeIdempotent | state.go:1314-1340 | merging the same records again changes nothing |
| Effects.DeathTakesEffect | state.go:1253-1310 | a death report about a peer that is held at or below it, and neither dead nor left, makes the peer dead, or left if it says so itself, ends its timer, is passed on and told to the delegate; any other changes nothing |
| Effects.ReportTakesEffect | state.go:1253-1310 | the same of every prepared report in every run |
| Effects.CallbackBuries | state.go:1226-1247 | the other half of AliveWins: in every run, if no alive message about the peer is accepted between a suspicion callback's look and its report, the peer is dead or left after it |
| Effects.SuspicionTakesEffect | state.go:1160-1249 | a suspicion about a live peer makes it suspect, is passed on, and starts a timer with no confirmation yet, the accuser excluded, the confirmations that the cluster size allows and its timeouts; about a suspect it is counted and passed on exactly if wanted and new; any other changes nothing |
| Effects.ProbeTakesEffect | state.go:517-520 | in every run, what a failed probe has prepared does the same in the local node's name, at the incarnation that was probed, exactly if the peer still stands |
| Effects.AnswerCostsHealth | state.go:923-924 | an accusation that the local node answers costs it one point of health, down to the worst score |
| Effects.AnnouncementTakesEffect | state.go:943-1156 | a peer's announcement is accepted exactly if versions and delegate agree and it comes from a new allowed address, the known one at a higher incarnation, or another allowed one for a vacant name; entry, timer, broadcast and event after it; else nothing changes, but a new node at incarnation zero is entered as dead |
| Effects.ReclaimExactly | state.go:1039-1071 | from another address a peer's entry changes exactly if the address is allowed and the peer has left, or is dead for longer than a positive reclaim time; it then has the new address and incarnation |
| Effects.LeftForGood | state.go:949-955 | after Leave no announcement about the local node has any effect |
| Effects.RecordTakesEffect | state.go:1314-1340 | one record: left is taken at its word, dead or suspect starts a suspicion in the local node's name, alive is an announcement |
| Effects.MergeEach | state.go:1314-1340 | in a whole exchange each record has on its peer the effect it has alone |
| Effects.ReapTakesEffect | state.go:565-586 | exactly the entries that are dead or left for longer than the gossip-to-the-dead time go |
| Effects.SetAliveTakesEffect | memberlist.go:464-472 | a new member: itself alive at incarnation 1, announced and told to the delegate |
| Effects.UpdateEffect | memberlist.go:513-538 | UpdateNode undisturbed: the next incarnation and the new meta, announced |
| Effects.LeaveEffect | memberlist.go:649-677 | Leave undisturbed: the local entry left at its incarnation, the farewell announced |
| Suspicion.TimeoutInRange | suspicion.go:89-100 | every timeout lies between the minimum and the maximum |
| Suspicion.TimeoutDecreases | suspicion.go:89-100 | a further confirmation never lengthens it |
| Suspicion.TimeoutAtK | suspicion.go:89-100 | with all confirmations it is the minimum |
| Suspicion.TimeoutIsExact | suspicion.go:89-100 | it is the logarithmic interpolation, rounded down by less than a millisecond, and at least the minimum |
| Suspicion.ExactShrinks | suspicion.go:89-100 | the interpolation starts at the maximum and each confirmation shortens it |
| Suspicion.DeadlineTheorem | suspicion.go:106-133 | for any order and timing of confirmations: at most one call, not before the minimum, not after the maximum, and the deadline never moves later |
| Suspicion.CountTheorem | suspicion.go:106-116 | the count is the number of distinct confirmers other than the originator, up to k |
| Suspicion.DeadlineIs | suspicion.go:53-133 | in every run the armed deadline is the timeout that the confirmations so far call for: the minimum if none are wanted, the maximum if none have come |
| Suspicion.SuspicionTimer.constructor | suspicion.go:53-83 | the object starts with the originator excluded, at the maximum, or at the minimum if no confirmation is expected |
| Suspicion.SuspicionTimer.ConfirmFrom | suspicion.go:106-133 | the object changes, and answers, as Confirm on values |
| MemberlistObject.Memberlist.Refute | state.go:915-939 | next or skipped incarnation, health, and the answer queued under the address |
| MemberlistObject.Memberlist.AddNode | state.go:1004-1037 | a new dead entry, in the index and at a random place of the list, which stay in agreement |
| MemberlistObject.Memberlist.AnswerAlive | state.go:1093-1116 | an alive message about ourselves is refuted unless it says what we say |
| MemberlistObject.Memberlist.TakeAlive | state.go:1118-1155 | the entry takes over the message and keeps what it lacks; broadcast and event |
| MemberlistObject.Memberlist.AcceptAlive | state.go:1074-1155 | the incarnation checks, the timer cleared, then one of the two |
| MemberlistObject.Memberlist.AliveNode | state.go:943-1156 | all of aliveNode: left, versions, delegate, address, reclaim |
| MemberlistObject.Memberlist.HandleAlive | net.go:725-752 | dropped if sender or address is not allowed; else a missing port is filled in and the message takes effect |
| Membership.Clamp | awareness.go:44-54 | the health score stays from zero to below its maximum |
| MemberlistObject.Memberlist.ConfirmSuspicion | state.go:1179-1184 | a further suspicion is counted, and passed on if it was news |
| MemberlistObject.Memberlist.StartSuspicion | state.go:1197-1248 | suspect entry, new timer for the cluster size, broadcast |
| MemberlistObject.Memberlist.SuspectNode | state.go:1160-1249 | all of suspectNode |
| MemberlistObject.Memberlist.TimeOut | state.go:1226-1247 | the callback reports a death exactly if it finds the suspicion it was started for |
| MemberlistObject.Memberlist.BuryNode | state.go:1285-1309 | dead, or left if the node said so itself |
| MemberlistObject.Memberlist.DeadNode | state.go:1253-1310 | all of deadNode |
| MemberlistObject.Memberlist.MergeState | state.go:1314-1340 | the records handled one after the other, a remote death as a suspicion |
| MemberlistObject.MoveDeadNodes | util.go:106-125 | in place: a permutation with exactly the expired nodes behind the returned index |
| MemberlistObject.Memberlist.ResetNodes | state.go:565-586 | exactly the expired nodes leave list and index, the list being any arrangement of the others |
| MemberlistObject.Memberlist.Probe | state.go:232-273 | the goto loop ends after at most one reset, at the node that Prober.Call names, which is alive or suspect and not the local one |
| MemberlistObject.Memberlist.SetAlive | memberlist.go:464-472 | the first announcement, at incarnation 1 |
| MemberlistObject.Memberlist.UpdateNode | memberlist.go:513-538 | the next incarnation announced with the new meta |
| MemberlistObject.Memberlist.Leave | memberlist.go:649-677 | once: the flag, then our own death reported by ourselves |
| MemberlistObject.Memberlist.Members | memberlist.go:608-620 | exactly the nodes neither dead nor left, each once |
| MemberlistObject.ReapShuffles | state.go:565-586 | what resetNodes makes of the list is a shuffle as the probe theorems assume |
| Prober.NeverIdleTwice | state.go:232-273 | no two calls in a row probe nobody |
| Prober.NextLiveProbed | state.go:232-273 | a call probes the first live node at or after the cursor, which moves past it |
| Prober.ReshuffledProbed | state.go:238-251 | with none there, the first live one of the reshuffled list, unless as many nodes as there are have been looked at before |
| Prober.RoundsComplete | state.go:232-273 | only live peers are probed, and each round between two wrap-arounds probes every one exactly once |
| Prober.ProbedAgain | state.go:232-273 | of any 2L-1 probes in a row, one is of any given one of the L live peers |
| Prober.CallsProbe | state.go:232-273 | 2n calls make at least n probes |
| Prober.CallsProbeAll | state.go:232-273 | any 4L-2 calls in a row probe every one of the L live peers |
| Prober.ScanWraps | state.go:238-251 | a call that has wrapped around gives up before it could wrap around again |
| Queue.TakenFits | queue.go:310-373 | first fit keeps the budget, and nothing left over would still fit |
| Queue.TakenPartition | queue.go:310-373 | taken and left-over items make up the queue, none twice |
| Queue.TakenInOrder | queue.go:310-349 | an item is taken exactly if it fits into what those taken before it have left |
| Queue.RetransmitLimitIs | util.go:77-81 | the limit is the multiplier times the number of decimal digits of the number of nodes |
| Queue.CeilLog10 | util.go:77-81 | the least k with 10^k at least the argument |
| QueueObject.TransmitLimitedQueue.DeleteItem | queue.go:249-260 | tree, index and generator after a deletion |
| QueueObject.TransmitLimitedQueue.AddItem | queue.go:264-269 | tree and index after an insertion that may replace |
| QueueObject.TransmitLimitedQueue.QueueBroadcast | queue.go:185-245 | the invalidated items finished and removed, the new one added |
| QueueObject.TransmitLimitedQueue.GetBroadcasts | queue.go:291-376 | the tier-by-tier range search returns, and leaves behind, exactly what one first-fit pass does |
| QueueObject.TransmitLimitedQueue.PruneQueue | queue.go:411-425 | items removed and finished from the end until few enough are left |
| QueueObject.TransmitLimitedQueue.ResetQueue | queue.go:395-407 | every item finished, the queue empty |
| QueueRun.PutLoses | queue.go:264-269 | an insertion loses an item exactly if Less cannot tell it from the new one |
| QueueRun.SendingOrder | queue.go:52-65 | in every run the queue has the least transmitted broadcasts first, among those the longest, among those the youngest |
| QueueRun.SubmitTakesEffect | queue.go:185-245 | submitting keeps exactly the items not replaced, finishes those replaced (of the same name; for a plain broadcast the plain ones it invalidates; for a unique one none) and adds one unsent item under the next id |
| QueueRun.ResetTakesEffect | queue.go:395-407 | reset finishes every item and starts the generator anew |
| QueueRun.SubmitKeepsIds | queue.go:191-217 | ids stay distinct and at most the generator exactly if submitting does not empty the tree |
| QueueRun.GetKeepsIds | queue.go:350-373 | the same for a call that takes everything and puts something back |
| QueueRun.StepConserves | queue.go:264-269 | from a state in order, a step keeps every broadcast queued or finished, once, exactly if no insertion meets an equal key |
| QueueRun.Conservation | queue.go:185-425 | in every run without such an insertion: index exact, every broadcast queued or finished, once, and sent as often as its item says |
| QueueRun.ConservedExactly | queue.go:185-425 | and these are all the runs in which nothing is ever lost or finished twice |
| QueueRun.SentToTheLimit | queue.go:350-369 | with a constant limit, an expired broadcast was sent exactly max(1, limit) times |
| QueueRun.IdsInOrder | queue.go:191-217 | while the generator does not start anew, ids are distinct and at most the generator, and no insertion meets an equal key |
| QueueRun.SubmitCollision | queue.go:249-260 | four broadcasts of one length, of which the second is lost |
| QueueRun.GetCollision | queue.go:350-373 | two broadcasts of one length, of which the first is lost |
| Handoff.MessageQueues.PushBack | net.go:463-475 | a message goes to the queue of its kind, or is dropped if that is full |
| Handoff.MessageQueues.GetNextMessage | net.go:490-504 | newest alive message first, else the newest other one |
| Handoff.MessageQueues.Drain | net.go:513-534 | the inner loop handles everything, alive messages first, newest first |
| Handoff.NoLostWakeup | net.go:463-482 | in every interleaving a queued message has a token, an active handler or a producer about to signal; depth kept; every arrival in exactly one place |
| Handoff.AliveFirst | net.go:490-504 | nothing else is taken while an alive message is queued |
| Handoff.ArrivalExactly | net.go:463-475 | in every run an arrival is queued last in its own queue, or dropped exactly if that has reached its depth |
| Handoff.TakeExactly | net.go:490-504 | in every run the handler takes the newest alive message, else the newest other one, and waits only if there is none |
| Handoff.Settles | net.go:509-540 | once arrivals cease, the number of steps left is bounded, whatever their order |
| Handoff.SettledIsDone | net.go:509-540 | when no step is left, every arrival has been handled or dropped |
| Compound.MakeCompoundMessage | util.go:179-200 | type, count byte, 16-bit lengths, messages |
| Compound.DecodeCompoundMessage | util.go:205-239 | the decoder, with truncation and its errors |
| Compound.MakeCompoundMessages | util.go:163-175 | runs of at most 255 messages |
| Compound.RoundTrip | util.go:179-239 | decoding undoes encoding exactly for at most 255 messages of at most 65535 bytes |
| Compound.EncodeLayout | util.go:179-200 | type, count, every length with the high byte first, and every message at its place |
| Compound.DecodeFails | util.go:205-226 | decoding fails exactly if the count or some of the lengths are missing |
| Compound.TruncatedDecode | util.go:228-238 | a message cut off anywhere in its body gives the whole messages, in order, and counts the rest |
| Compound.SplitIsPrefix | util.go:228-238 | the parts are a prefix of the body, for any input |
| Compound.ChunksKeep | util.go:163-175 | the runs hold all messages in order, and each can be encoded |
| Label.RoundTrip | label.go:24-66 | removing undoes adding exactly if there is a label or the packet does not look labelled; size |
| Label.Canonical | label.go:37-66 | every accepted packet is what adding its label gives |
| Security.PadUnpad | security.go:40-57 | padding of section 6.3 of RFC 5652, and its removal |
| Security.Pkcs7Encode | security.go:40-47 | the loop pads what follows the ignored bytes |
| Security.OverheadSuffices | security.go:60-84 | the overhead is the most that encryption adds, reached exactly with version 1 or a whole block |
| Security.EncryptedSize | security.go:73-84 | the encrypted length is the computed one |
| Security.EncryptPayload | security.go:89-139 | version, nonce, sealed text, appended to the buffer |
| Security.DecryptPayload | security.go:172-202 | the first key that opens the packet, then the padding off |
| Security.RoundTrip | security.go:89-202 | a ring with the sender's key recovers the message, for versions 0 and 1 |
| Security.RefusedExactly | security.go:172-202 | refused exactly if empty, of an unknown version, too short for its version, or opened by no valid key |
| Security.CrashesExactly | security.go:49-57 | removing the padding panics exactly if the opened plaintext of a version 0 packet is empty or ends in a byte beyond its length |
| Security.VersionNotSealed | security.go:172-202 | a version 1 packet marked as version 0 panics exactly if its plaintext ends in a byte beyond its length, and is cut short otherwise |
| Security.SearchDecides | security.go:189-199 | while another key is being removed, the search recovers the message exactly if it does not miss the sender's key |
| Security.RemovalHidesKey | security.go:189-199 | a search that misses it |
| Keyring.KeyRing.InstallKeys | keyring.go:132-143 | the primary first, the others in order |
| Keyring.KeyRing.AddKey | keyring.go:81-100 | added at the end if valid and new |
| Keyring.KeyRing.UseKey | keyring.go:104-112 | moved to the front if it is there |
| Keyring.KeyRing.RemoveKey | keyring.go:116-127 | removed unless primary; the slice that readers hold ends up shifted, with every other key in it |
| Keyring.SearchFinds | keyring.go:116-127 | a reader of a slice that is being shifted, at any pace, sees another key exactly if that has not moved down between its two looks |
| Keyring.ReaderFindsOthers | keyring.go:116-127 | a reader that has looked at the first places finds every other key exactly if it does not stand between the removed one and the last |
| Keyring.NewKeyring | keyring.go:43-62 | primary and others, or an error for an invalid key |
| Keyring.ApplyIs | keyring.go:81-143 | members and primary after each operation, on any proper ring |
| Keyring.OutcomeFails | keyring.go:68-127 | an operation fails exactly for an invalid new key, a key to use that is not there, or the primary to be removed |
| Keyring.ApplyOrder | keyring.go:81-143 | a new key comes last, a used one first, and the others stay in their order |
| Keyring.NewIs | keyring.go:43-62 | an error exactly for keys without a primary or an invalid key; else the primary first and every key once |
| Keyring.KeyStays | keyring.go:81-143 | in every history a key stays until it is removed, and no key is there twice |
| Keyring.PrimaryStays | keyring.go:104-127 | only UseKey changes the primary |
| Packet.RawSendMsgPacket | net.go:825-888 | an error for a missing name or address; else compression if smaller, checksum for a known version 5, encryption, label |
| Packet.CompressedExactly | net.go:830-842 | compressed exactly if that is on, works and makes the message smaller |
| Packet.WireLayout | net.go:825-888 | the bytes of a packet: label, version and nonce, checksum with the high byte first, message |
| Packet.HandleCommand | net.go:431-486 | the messages that reach a handler, in order |
| Packet.IngestPacket | net.go:373-429 | label, decryption or its tolerated failure, checksum, handling |
| Packet.OnlySealedDelivered | net.go:380-416 | with verification, what is delivered carried the wanted label (none if the transport checks it), and some valid key of the ring opens the rest with the label as associated data |
| Packet.OtherLabelDiscarded | net.go:378-399 | a packet without the wanted label, with another, or with a broken one is discarded |
| Packet.UnopenedPacket | net.go:401-416 | a packet that no key opens is discarded with verification, and without is taken as if there were no keys |
| Packet.PlainPacket | net.go:426-428 | without keys, what follows the label and has no checksum is handled as it is |
| Packet.ChecksumDecides | net.go:418-425 | a message with a checksum is handled exactly if that, read with the high byte first, is the checksum of its bytes; else discarded |
| Packet.TypesHandled | net.go:431-486 | which types reach a handler; what does not decode, and any other type, gives nothing |
| Packet.CompoundPacket | net.go:798-888 | a compound of up to 255 messages, through all layers, is handled as those messages in order |
| Packet.GossipRoundTrip | state.go:622-641 | any list of messages of at most 65535 bytes, chunked and sent through all layers, is handled in order |
| Packet.RekeyedRoundTrip | keyring.go:81-143 | the same, encrypted, with any history of the receiver's ring, between the packets of one list and during the search for a key, that keeps the key each packet was sealed with and does not hide it |
| Budget.GetBroadcasts | broadcast.go:80-108 | queued messages, then the delegate's with their type byte |
| Budget.BroadcastsFit | broadcast.go:80-108 | together, with their overhead, within the limit |
| Budget.UserMessagesFollow | broadcast.go:80-108 | the delegate is asked exactly if more than the overhead of one is left, told that overhead and what is left, and its messages follow the queued ones in order, each behind the type byte |
| Budget.WireSize | net.go:825-888 | each layer adds at most its reserve, exactly that without compression and padding |
| Budget.WireExact | net.go:825-888 | the exact size, for every sender |
| Budget.PiggybackedSize | net.go:798-822 | a packet with broadcasts is at most 2 bytes over the buffer size, and 5 for a checksum |
| Budget.PiggybackedFits | net.go:798-822 | without compression and padding it keeps to the buffer size exactly if the broadcasts leave room for the uncounted slot and the checksum |
| Budget.PiggybackedTight | net.go:798-822 | a packet that is 2 bytes over |
| Budget.GossipSize | state.go:613-641 | a gossip packet is within the buffer size, and 5 for a checksum |
| Budget.GossipFits | state.go:613-641 | without compression and padding a compound keeps to the buffer size exactly if the messages, or an unused reserve, leave room for the checksum |
| Budget.GossipTight | state.go:613-641 | a packet that is over by the checksum |

## Left out

- Packet.HandleCommand: compressed messages inside compressed messages are unwrapped up to a depth given as a parameter, because decompression has no length measure; the theorems hold for every depth of at least 1.
- QueueObject.TransmitLimitedQueue.PruneQueue: an empty queue is an empty tree; the code has no tree before the first broadcast and after Reset, and cannot prune then.
- QueueObject.TransmitLimitedQueue.GetBroadcasts: an item is a value with its broadcast's identity, not an object, and its message does not change, so the defensive length check of the range search is always passed.
- QueueRun.Conservation: assumes that a broadcast object is submitted once.
- Keyring.SearchFinds: a place of the slice is read and written as a whole.
- Keyring.KeyRing.RemoveKey: requires a ring with a key, as the code reads the first one.
- MemberlistObject.Memberlist.UpdateNode: requires the local node in the index, as the code reads it from there; waiting for the broadcast to go out is not modelled.
- MemberlistObject.Memberlist.Leave: one atomic step, without waiting for the broadcast to go out; its two halves, and whatever comes between, are separate steps in NodeRun.
- MemberlistObject.Memberlist.ResetNodes: the shuffle is any sequence of swaps.
- The suspicion timeout and the retransmit limit use exact arithmetic, not floating point; the minimum suspicion timeout is a parameter.
- Broadcasts of one member are a log of what was queued; the queue itself is a component of its own.
- MemberlistObject.Memberlist.HandleAlive: the verdict on the sender's address is a parameter, and an empty address counts as none.
- Stream connections, DNS, sockets, probing over the network with acks and nacks, and shutdown of the listeners.
- The encoding of messages, LZW, AES-GCM and CRC-32 themselves.
- Health scores beyond refutation, kRandomNodes, protocol verification at join, configuration defaults, metrics and logging.
- Order independence of messages, which does not hold: a confirmation leaves the incarnation alone, and suspect and dead messages raise it without a payload.
