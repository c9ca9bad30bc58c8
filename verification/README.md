# Zodiac: a verified model of one node and its cluster

Zodiac is a replicated key-value store. Raft hands every node the same log; each node applies the
log to an in-memory store with leases, answers the waiting request, pushes watch events and takes
snapshots. This project models that apply machine and the structures around it in Dafny 4.11, and
proves what holds over whole logs, whole runs and all interleavings.

`dafny verify dfyconfig.toml` checks everything.

## How it is put together

| file | what it holds |
|---|---|
| `Text.dfy`, `Api.dfy`, `Collections.dfy` | Go string order, `ParseInt`/`FormatInt`, commands and events, ranging over a map in any order |
| `StoreSpec.dfy` | the meaning of the store: key to value and optional owning lease; revoking is a full scan |
| `IndexedStore.dfy` | the `DataStore` class with its `Lease` objects and its two lease indexes, proved against that meaning |
| `Paging.dfy` | listing and cursor pagination |
| `Machine.dfy` | the state machine: effect, answer and permitted events of one committed command; runs of a log |
| `MaterialisedView.dfy`, `Views.dfy` | rebuilding the data from the event stream |
| `Meanings.dfy` | what conditions, commands, replies and events mean to a client, said apart from the functions that compute them |
| `KeyHistory.dfy` | along a log: which put gave a key to a lease, and which of several swaps wins |
| `Retry.dfy`, `Revision.dfy`, `Leases.dfy` | duplicates, the revision as a clock, lease ids, late and repeated entries |
| `Cluster.dfy` | many nodes, own clocks, snapshots, restarts |
| `Updater.dfy` | what the apply loop is fed and what it makes of it, as runs of the machine and steps of the cluster |
| `Ring.dfy`, `Watch.dfy`, `WatchProtocol.dfy`, `ListWatch.dfy` | event buffer, fan-out, the subscribe/replay/push/deliver protocol, list-then-watch |
| `CommitSubs.dfy` | commit channels between handlers and the apply loop, in every interleaving |
| `Sse.dfy`, `Json.dfy` | the event stream's writer and the client's reader; the JSON text of an event |
| `Resume.dfy` | a stream that breaks off and is taken up with `Last-Event-ID` |
| `Service.dfy` | the `KVService` class: `handleCommand`, `handleSnapshot`, `maybeSnapshot` and the apply loop over the real objects |

The classes (`DataStore`, `EventBuffer`, `Hub`, `CommitChan`, `KVService`) follow the source step by
step and are proved to do what the value-level machine says. `KVService.RunUpdater` carries this to
a whole run over commands, config changes and snapshots, `Updater.QuietRun` makes such a run a log of
the machine, and `Updater.LoopIsClusterNode` makes it the run of a node in the cluster, so the theorems
about logs and clusters are theorems about the objects. Clock readings are inputs. The order
of ranging over a map is left open everywhere.

## Where the code falls short

The model follows the code. Where a promise does not hold, a lemma shows a failing case and another
says exactly when it does hold.

| promise | fails | holds exactly when |
|---|---|---|
| a snapshot after every 100 entries (README.md:90) | `Cluster.ShutGateFallsBehind`: a node that was never given a snapshot keeps `lastSnapshotIndex` at -1 and its gate shut; `Cluster.NoFirstSnapshot`: a cluster without one never gets one | `Cluster.SnapshotKeepsUpIff`: the node was given a snapshot since it last started, or has applied fewer than 100 entries |
| `prefix` filters a watch (README.md:463) | `WatchProtocol.ReplayIgnoresPrefix`: replay is not filtered, and `since` = 0 replays the whole buffer although README.md:55 speaks of `since > 0` only | `WatchProtocol.OnlyMatchingIff`: when the watcher replays, everything buffered above `since` matches; `WatchSafeIff`: for every buffer, exactly with no prefix or with `since` not below the node's revision or before its first event |
| a duplicate answer means the request was applied | `Retry.OvertakenRequestIsLost`: a request that commits after a later one of its client; `Retry.CollidingClientsLoseRequest`: two client processes that use the same client id, which each counts from 1 | `Retry.FilterExact`: each client's ids first appear in increasing order, and no two different requests share their ids |
| the event stream mirrors the store | `MaterialisedView.StrayEventMisleads`: a transaction operation of unknown kind emits a put and changes nothing | `MaterialisedView.ViewRightThroughoutIff` |
| replay from a listing's revision completes the listing | `ListWatch.InstallLeavesHole`: a snapshot was installed in between | `ListWatch.InstallBetweenIff`: every matching key the skipped commands changed was written again; `ReplayRightIff` and `ListThenReplayIff` with evictions as well |
| a watch can be taken up with `Last-Event-ID` (README.md:465) | `Resume.ResumeLosesHalfATransaction`: a stream that breaks between two events of one transaction; `Resume.ResumeInTheOverlap`: one that breaks among live events that repeat replayed ones, with every event read | `Resume.ResumedWatchIff`: every matching key that the client had, when the stream broke, otherwise than the store had it at the id of the last event read has a later event still buffered; `CleanCutResumesRight`: so always when that event is the last one of its command and nothing was dropped or evicted |
| an expiry entry removes expired leases | `Leases.RenewalCanComeTooLate`: the lease was renewed while the entry was on its way; `Leases.ReplayingReplicaIsEarly`: a replica applies its log faster than its clock runs | `Leases.RemovedUnexpiredIff`: neither the last renewal before the entry nor, without one, the deadline the lease had reaches the clock reading the entry is applied with; `RenewalLostIff` for the node that proposed it |
| a lease lasts `ttl` seconds | ttl beyond 9223372036 wraps | `StoreSpec.DeadlineExact` |
| entries under a client id, and expiries, can be applied again | a repeated expiry entry raises the revision | `Leases.RedeliveryMovesOnlyRevision` counts by how much; other entries without a client id act again |

## Model

| member | source | states |
|---|---|---|
| Text.ParseFormat | kvclient/kvclient.go:377-379 | an int64 printed in decimal parses back to itself |
| Text.LexIff | kvservice/datastore.go:141-145 | the string order is that of the first differing character, with a string before its extensions |
| Text.ParseIff | kvservice/datastore.go:187-191 | exactly the numerals of int64 numbers parse: a sign that fits, any zeros, and the digits; each to its number |
| Text.FormatDigit | kvservice/kvservice.go:1082-1084 | a printed number has the digit of 10 to the i at position i from the right, and no leading zero |
| StoreSpec.DeadlineExact | kvservice/datastore.go:217-222 | a lease deadline is `ttl` seconds away if and only if the int64 nanosecond product does not wrap, that is for ttl between -9223372036 and 9223372036 |
| StoreSpec.OpsActPerKey | kvservice/datastore.go:334-348 | a transaction branch leaves each key exactly as its operations on that key alone would, and touches no lease |
| StoreSpec.RevokeTwice | kvservice/kvservice.go:1093-1102 | revoking leases one after another removes the same keys and leases as one scan for all of them |
| Machine.RunKeeps | kvservice/datastore.go:212-224 | along every log lease ids stay within the counter, only live leases own keys, and the counter never goes down |
| IndexedStore.DataStore.constructor | kvservice/datastore.go:29-36 | a new store means the empty store |
| IndexedStore.DataStore.ViewFacts | kvservice/datastore.go:21-27 | in every valid state an owned key is stored and its owner is a live lease |
| IndexedStore.DataStore.Get | kvservice/datastore.go:38-44 | returns what the store means at the key, with the empty string for a missing one |
| IndexedStore.DataStore.DetachKeyFromLease | kvservice/datastore.go:56-65 | takes the key out of both indexes and leaves them inverse |
| IndexedStore.DataStore.AttachKeyToLease | kvservice/datastore.go:46-54 | files the key under the lease in both indexes, or under none if the lease is gone, and leaves them inverse |
| IndexedStore.DataStore.PutLocked | kvservice/datastore.go:67-75 | the indexed store ends up meaning a plain put: new value, owner reset to the named lease if it is live and else to none |
| IndexedStore.DataStore.AppendLocked | kvservice/datastore.go:83-87 | means a plain append that keeps the owner; returns the value found |
| IndexedStore.DataStore.CasLocked | kvservice/datastore.go:95-101 | means a compare-and-swap that keeps the owner; returns the value found |
| IndexedStore.DataStore.DeleteLocked | kvservice/datastore.go:109-114 | means removing the key and its ownership |
| IndexedStore.DataStore.GrantLease | kvservice/datastore.go:212-224 | adds a lease under an id no live lease has, one above the counter |
| IndexedStore.DataStore.KeepAliveLease | kvservice/datastore.go:226-235 | moves the deadline of a live lease and nothing else |
| IndexedStore.DataStore.RevokeLease | kvservice/datastore.go:237-252 | following the lease's own key set removes exactly the keys a scan by owner finds, and lists each once |
| IndexedStore.DataStore.CheckExpiredLeases | kvservice/datastore.go:254-265 | lists exactly the leases whose deadline has passed, each once |
| IndexedStore.DataStore.Txn | kvservice/datastore.go:317-350 | conditions are judged on the state before; the chosen branch is a left fold of single operations, and result i is what operation i found |
| IndexedStore.DataStore.EvalConditionLocked | kvservice/datastore.go:176-210 | a condition holds as documented: numerically when both sides are int64 numerals, else by string order |
| IndexedStore.DataStore.List | kvservice/datastore.go:122-133 | exactly the pairs whose key has the prefix, whatever order the map is ranged in |
| IndexedStore.DataStore.ListPaged | kvservice/datastore.go:135-157 | the first `limit` candidates in key order and the key after them |
| IndexedStore.DataStore.TakeSnapshot | kvservice/datastore.go:273-294 | the snapshot's two indexes agree and it describes the store's meaning |
| IndexedStore.DataStore.Restore | kvservice/datastore.go:296-315 | whatever was there before, the store means what the snapshot describes, and its indexes are inverse again |
| IndexedStore.DescribesOne | kvservice/kvservice.go:31-45 | a snapshot describes one store only, so taking and restoring is a round trip |
| Paging.PageMeaning | kvservice/datastore.go:139-156 | a page holds exactly the candidates below the cursor it returns, `limit` of them unless it is the last |
| Paging.PageUnique | kvservice/datastore.go:139-156 | that description fixes the page |
| Paging.ListReadsAs | kvservice/datastore.go:127-131 | a listing has exactly the keys that begin with the prefix, character by character |
| Paging.PageReadsAs | kvservice/datastore.go:139-156 | a page in plain terms: the keys that begin with the prefix, are not before `keyAfter` and come before the next key, in the order of the first differing character |
| Paging.CursorNotEmpty | kvservice/datastore.go:148-153 | the empty cursor means the end of the listing and nothing else |
| Paging.NoKeyTwice | kvservice/datastore.go:135-157 | with any writes between pages, no key is on two pages of a chain |
| Paging.PagesAscend | kvservice/datastore.go:145-156 | with any writes between pages, every key of a page comes before every key of a later page, in that order |
| Paging.EveryLastingKeyOnce | kvservice/datastore.go:135-157 | a matching key present at every read is on exactly one page of a finished chain |
| Paging.ChainLength | kvservice/datastore.go:148-156 | on a fixed store the chain ends if and only if it has max(1, ceil(n / limit)) pages |
| Paging.ChainIsList | kvservice/datastore.go:122-157 | and its pages together are the unpaged listing, each key once with its value |
| MaterialisedView.LastEmitDecides | kvservice/kvservice.go:1173-1201 | the last operation on a key that emits an event decides what the key holds at the end: its value for a put or a swap, nothing for a delete, what it found with its value after it for an append |
| MaterialisedView.TxnViewExact | kvservice/kvservice.go:1167-1202 | a transaction's events turn the old data into the new if and only if no unknown operation's event is the last on a key it disagrees with |
| MaterialisedView.StepView | kvservice/kvservice.go:1128-1204 | one command's events, in any order of deletions, turn its pre-data into its post-data, with the same exact condition |
| MaterialisedView.ViewFollowsStore | kvservice/kvservice.go:1128-1204 | for every log of known kinds, from any state, folding all events over the starting data gives the final data |
| MaterialisedView.ViewRightThroughoutIff | kvservice/kvservice.go:1128-1204 | from the empty store the rebuilt view is right after every command if and only if every applied transaction is harmless, which known kinds are |
| MaterialisedView.StrayEventMisleads | kvservice/kvservice.go:1195-1199 | an unknown transaction operation leaves the view wrong |
| Meanings.NumericConditions | kvservice/datastore.go:183-202 | between numerals of int64 numbers, however spelled, "at least" and "at most" compare the numbers |
| Meanings.PrintedConditions | kvservice/datastore.go:176-202 | and for numbers as printed, equality too |
| Meanings.TextConditions | kvservice/datastore.go:189-201 | with anything else on either side the order of the first differing character decides |
| Meanings.PlainConditions | kvservice/datastore.go:179-209 | equality and presence and their opposites; a missing key meets the two negative comparisons only, and an unknown code is never met |
| Meanings.ConditionsConjoin | kvservice/datastore.go:321-327 | an empty list of conditions is met, and one more condition decides together with the rest |
| Meanings.TxnRuns | kvservice/datastore.go:317-350 | which branch a transaction with one condition runs, and that the reply says so |
| Meanings.PutMeans | kvservice/datastore.go:67-75 | a put leaves its value, gives the key to the lease it names if that is live and else to nobody, and touches nothing else |
| Meanings.AppendMeans | kvservice/datastore.go:83-87 | an append leaves what was there followed by the value, and the owner as it was |
| Meanings.CasMeans | kvservice/datastore.go:95-101 | a swap takes place just when the key has the value compared with; else nothing changes |
| Meanings.DeleteMeans | kvservice/datastore.go:109-114 | a delete takes the key and nothing else |
| Meanings.CommandWrites | kvservice/kvservice.go:1067-1072 | what an applied put, append or swap leaves under its key, and that it changes nothing else |
| Meanings.WriteIsOneOpTxn | kvservice/kvservice.go:1067-1075 | a write command and the transaction of that one operation agree on the whole state, on what they found, and on what they emit |
| Meanings.GrantMeans | kvservice/datastore.go:212-224 | the reply to a grant parses to the one id that is new; that lease runs out `ttl` seconds from now, for a ttl in range |
| Meanings.KeepAliveMeans | kvservice/datastore.go:226-235 | a renewal sets its lease's deadline `ttl` seconds from now, changes nothing else, and reports whether the lease was live |
| Meanings.DeadlineWraps | kvservice/datastore.go:217-222 | for any ttl the deadline is off by a multiple of 2 to the 64 |
| Meanings.RevisionMeans | kvservice/kvservice.go:1109-1118 | which commands raise the revision, and that a reply carries the one after the command and says whether it was filtered |
| Meanings.ReadsLeaveStore | kvservice/kvservice.go:1046-1057 | reads and filtered commands change nothing |
| Meanings.AnswersFollowEvents | kvservice/kvservice.go:1046-1072 | along every log a read, fresh or retried, and the previous value an applied write reports, are what the events so far say of the key |
| Meanings.ListingsFollowEvents | kvservice/kvservice.go:1076-1081 | and a listing is the pairs under the prefix that they say, or a page of them |
| Meanings.ResultsTell | kvservice/datastore.go:334-348 | result i of a transaction is what the last effective operation on its key before it left, or what the store had |
| Meanings.EventsMean | kvservice/kvservice.go:1128-1166 | the events of each single command: a swap emits just when it took place, a revocation one delete per key that went |
| Meanings.TxnEventsMean | kvservice/kvservice.go:1167-1202 | a transaction emits one event per effective operation, in order, with the value of a put, the value a delete found, and the final value for an append or a swap |
| KeyHistory.OwnerIff | kvservice/datastore.go:46-114 | along every log a live lease owns exactly the keys whose last put or delete, as a command or in a branch that ran, was a put that named it while it was live |
| KeyHistory.RevokeRemovesIff | kvservice/datastore.go:237-252 | so an applied revocation or expiry removes, reports, and emits one delete for exactly the keys so given to one of its leases that is live |
| KeyHistory.OneSwapWins | kvservice/datastore.go:95-101 | of any number of swaps of a key away from one value, while nothing else writes it, at most one takes effect; the others change nothing and are not told they found it |
| Retry.TableIsHighest | kvservice/kvservice.go:1046-1062 | the duplicate table holds exactly each client's highest request id of the log so far |
| Retry.FlaggedIff | kvservice/kvservice.go:1046-1058 | an entry is answered as a duplicate if and only if its client already got as far or further |
| Retry.AtMostOnce | kvservice/kvservice.go:1046-1062 | of the entries with one pair of ids at most the first is applied, whatever order requests arrive in |
| Retry.FilterExact | kvservice/kvservice.go:1046-1062 | an entry is answered as a duplicate just when the same command was applied before, for every entry, if and only if each client's ids first appear in increasing order and equal ids carry equal commands |
| Retry.RetriesTransparent | kvservice/kvservice.go:1046-1062 | then a log with any repeats of whole commands ends in the state of the log without them |
| Retry.FirstAnswersSame | kvservice/kvservice.go:1046-1107 | and every first attempt gets the answer it would get with no repeats around |
| Retry.ExactlyOnce | kvservice/kvservice.go:1046-1062 | and each command in the log was applied by exactly one of its entries |
| Retry.OvertakenRequestIsLost | kvclient/kvclient.go:29-31 | two requests of one client that commit out of order: the late one is flagged though never applied |
| Retry.CollidingClientsLoseRequest | kvclient/kvclient.go:34-46 | two processes that both use client id 1: the later one's request is flagged, and its key never appears, although all ids are in order |
| Revision.RevisionCounts | kvservice/kvservice.go:1109-1118 | the revision is the number of write commands really applied |
| Revision.RevisionGrows | kvservice/kvservice.go:1109-1118 | it never goes down along a log |
| Revision.RevisionFixesEntries | kvservice/kvservice.go:1109-1118 | two points of a run with one revision hold the same keys, values and owners |
| Revision.SameRevisionSameRead | kvservice/kvservice.go:1049-1057 | reads, fresh or retried, that report one revision report one result |
| Leases.IdsNeverReused | kvservice/datastore.go:212-224 | no log hands out a lease id twice, even after its lease is gone |
| Leases.GoneForGood | kvservice/datastore.go:212-252 | a lease that is gone never comes back |
| Leases.LateExpirySparesNewLeases | kvservice/kvservice.go:180-202 | an expiry entry naming leases seen at one position and committed at any later one never touches a key of a lease granted in between, nor an unowned key |
| Leases.ExpiryIdleIff | kvservice/datastore.go:237-252 | an expiry entry leaves the store alone if and only if none of its leases is live |
| Leases.LiveBetween | kvservice/datastore.go:237-252 | a lease is still there later in the log if and only if no applied entry in between revokes it |
| Leases.DeadlineBetween | kvservice/datastore.go:226-235 | its deadline is then that of its last applied renewal in between, or the one it had |
| Leases.RemovedUnexpiredIff | kvservice/kvservice.go:180-202 | for a lease seen at any earlier position and any clock readings: an expiry entry removes a lease that is unexpired by the clock it is applied with if and only if the lease was not revoked in between and its last renewal in between, or without one its earlier deadline, reaches that reading |
| Leases.RenewalLostIff | kvservice/kvservice.go:180-202 | on the proposing node, whose clock does not run back, that is if and only if the lease was renewed in between and the last renewal reaches the entry |
| Leases.ReplayingReplicaIsEarly | kvservice/kvservice.go:180-202 | a log in which an expiry entry removes an unexpired lease with no renewal at all |
| Leases.RenewalCanComeTooLate | kvservice/datastore.go:226-252 | such a log: a lease renewed after an expiry proposal and before its entry is removed although its deadline is ahead |
| Leases.RedeliveryMovesOnlyRevision | kvservice/kvservice.go:1044-1118 | applying applied entries again, those under a client id and expiries, in any order and number, changes nothing but the revision, by one per repeated expiry |
| Cluster.ClocksDoNotMatter | kvservice/datastore.go:212-252 | nodes that differ only in deadlines still do after any command at any clock readings, and answer it alike |
| Cluster.ReplicasAgree | kvservice/kvservice.go:897-995 | in every run of clocks, snapshots, installs and restarts, two nodes equally far agree on data, owners, leases, counter, duplicate table and revision, and on the next answer |
| Cluster.EveryNodeIsARun | kvservice/kvservice.go:965-1040 | however a node got where it is, its state is that of running all commands of its part of the log, deadlines aside |
| Cluster.NoFirstSnapshot | kvservice/kvservice.go:1206-1208 | a cluster ever has a snapshot if and only if one was there at the start |
| Cluster.GateOpenIff | kvservice/kvservice.go:1206-1208 | in every run a node's gate is open if and only if it was given a snapshot since it last started, whatever snapshots the cluster has |
| Cluster.SnapshotKeepsUpIff | kvservice/kvservice.go:937-954 | in every run, after every applied command that could be encoded, the node is less than 100 entries past its last snapshot if and only if it was given one since it started or has applied fewer than 100 |
| Cluster.ShutGateFallsBehind | kvservice/kvservice.go:1206-1208 | for every n, a node of a cluster that has a snapshot can apply n entries and take none |
| Cluster.SnapshotsSpaced | kvservice/kvservice.go:937-954 | in every run, over installs and restarts, a node takes a snapshot only on top of one it took or was given since it started, at least 100 entries later |
| Cluster.SpacedChain | kvservice/kvservice.go:937-954 | so the m-th snapshot in a row is at least 100 m entries later |
| Ring.EventBuffer.constructor | kvservice/watch.go:29-34 | a new buffer has seen nothing |
| Ring.EventBuffer.Push | kvservice/watch.go:36-52 | the ring holds exactly the last `size` of everything ever pushed, in order |
| Ring.EventBuffer.Replay | kvservice/watch.go:54-67 | hands out exactly the buffered events above `since`, oldest first |
| Ring.ReplayCompleteIff | kvservice/watch.go:54-67 | replay is complete if and only if everything evicted is at or below `since` |
| Ring.ReplayIsSuffix | kvservice/watch.go:54-67 | with nondecreasing revisions what replay hands out is the tail of the history |
| Watch.Hub.constructor | kvservice/kvservice.go:132-133 | no history and no subscribers |
| Watch.OfferMeans | kvservice/watch.go:193-200 | a channel takes an event at its end just when the key begins with its prefix and it holds fewer than 64 |
| Watch.Hub.Subscribe | kvservice/watch.go:156-164 | a new id with an empty channel; the other subscriptions are untouched |
| Watch.Hub.Unsubscribe | kvservice/watch.go:166-174 | only that subscription goes and only its channel is closed, once; subscribers always have an open channel |
| Watch.Hub.PushWatchEvent | kvservice/watch.go:190-203 | the event is in the buffer, and every subscriber whose prefix matches and whose channel has room got it once |
| WatchProtocol.ExecuteOk | kvservice/watch.go:120-137 | in every interleaving a watcher's output and queue are what it replayed followed by what its channel took |
| WatchProtocol.DeliveryCount | kvservice/watch.go:120-137 | how often an event reaches a watcher: once if replayed, once if it went through the channel |
| WatchProtocol.NoGapAtTheSeam | kvservice/watch.go:120-137 | a delivered matching event above `since`, neither evicted nor dropped, arrives once or twice, and twice if and only if it came between subscribing and replaying |
| WatchProtocol.OnlyMatchingIff | kvservice/watch.go:120-137 | in every run a watcher is sent matching events only, if and only if at the moment it replays everything buffered above its `since` matches |
| WatchProtocol.WatchSafeIff | kvservice/watch.go:123-126 | which watches are safe whatever a node at some revision has buffered: those without a prefix, those whose `since` is not below that revision, and all before its first event |
| WatchProtocol.OnlyMissedBeyond | kvservice/watch.go:190-203 | a watcher that has drained its channel knows every matching key up to the end but for events that were dropped or evicted |
| WatchProtocol.ReplayIgnoresPrefix | kvservice/watch.go:123-126 | a watch on one prefix can be sent an event of another |
| WatchProtocol.WrittenEvents | kvservice/watch.go:123-138 | what a watcher that missed nothing has written, as events |
| WatchProtocol.SeamLeavesViewRight | kvservice/watch.go:120-137 | the overlap, and live events older than the listing, leave the final view of the prefix unchanged |
| ListWatch.EmittedRevision | kvservice/kvservice.go:1109-1204 | events carry the revision their command made, above every earlier one |
| ListWatch.HistoryRevisions | kvservice/kvservice.go:1109-1204 | along every log the event history has nondecreasing revisions |
| ListWatch.ListThenReplay | kvservice/watch.go:54-67 | a listing at revision R updated with the matching events of `Replay(R)` is the listing now, if nothing above R was evicted |
| ListWatch.ListThenWatch | kvservice/watch.go:89-143 | end to end: a client that lists, watches from that revision and catches up holds the current listing, in every interleaving |
| ListWatch.WatcherRightIff | kvservice/watch.go:120-137 | whatever was dropped or evicted and wherever the watcher stands, its view is the current listing if and only if no matching key has changed since the last event on it that it was sent |
| ListWatch.ListThenReplayIff | kvservice/watch.go:54-67 | with evictions: the result is the current listing if and only if every matching key that evicted events changed was written again by a kept one |
| ListWatch.ReplayRightIff | kvservice/kvservice.go:979-994 | listing, more commands, a snapshot install, more commands, any evictions: when exactly replaying from the listing's revision gives the current listing |
| ListWatch.InstallBetweenIff | kvservice/kvservice.go:979-994 | with nothing evicted: if and only if every matching key the skipped commands changed was written again since the install |
| ListWatch.InstallLeavesHole | kvservice/kvservice.go:979-994 | a node that lists, applies a command, is given a snapshot of one more command and applies another: replay misses the skipped one |
| CommitSubs.ExecuteOk | kvservice/kvservice.go:1249-1268 | in every interleaving waiting channels are fresh and distinct, and any other has been closed exactly once |
| CommitSubs.ChannelsOrderly | kvservice/kvservice.go:1120-1126 | each channel sees at most one send and at most one close, in that order |
| CommitSubs.ApplyLoopNeverBlocks | kvservice/kvservice.go:1120-1126 | the apply loop only sends on a channel nothing was sent on; between commands every handler is waiting or has been told |
| CommitSubs.SnapshotCancels | kvservice/kvservice.go:988-993 | a snapshot leaves exactly the subscriptions above it and closes the others unsent |
| Sse.WriteIsJoin | kvservice/watch.go:145-150 | what the server writes is clean lines, four per event |
| Sse.ReadSse | kvclient/kvclient.go:355-405 | the client's line loop computes the reader's meaning of the body |
| Sse.RoundTrip | kvclient/kvclient.go:355-405 | the client gets exactly the events written up to the first with a line over the scanner's limit, so all of them if and only if every line fits |
| Sse.CutGivesPrefix | kvclient/kvclient.go:386-404 | a stream cut at any character gives a prefix of the events |
| Json.GoJsonLawful | api/api.go:188-193 | the JSON text of an event is one clean line that reads back as the event, and no proper beginning of it reads back at all |
| Json.DocumentedText | api/api.go:188-193 | the text of an event with nothing to escape, as documented at README.md:456, with an empty value left out, unlike README.md:460 |
| Json.DocumentedLines | kvservice/watch.go:145-150 | the lines around it, as documented at README.md:454-456 |
| Json.JsonStream | kvclient/kvclient.go:355-405 | so with that text the stream round trip and the cut hold with nothing assumed |
| Resume.CutOfStream | kvservice/watch.go:90-108 | a stream cut at any character has brought the events up to some place, and the server goes on from the id of the last one, whatever `since` says |
| Resume.ResumedViewIff | kvservice/watch.go:92-126 | whatever a client started from and has read, in whatever order: taken up at the id of its last event its map is the current listing if and only if every matching key it has otherwise than the store had at that id, or at the oldest event still buffered since, has an event still buffered |
| Resume.ResumedWatchIff | kvservice/watch.go:92-142 | the same for the client of any watcher of any run, with any prefix, cut after any number of events: the condition is on the history, at the point up to which the client knew each key |
| Resume.CutKnown | kvservice/watch.go:120-142 | where that point is: at the cut in the replay and past the overlap; in the overlap at the cut for keys with a live event again, and at the end of the replay for the others |
| Resume.ResumedCutIff | kvservice/watch.go:92-142 | the exact condition with those points, for a watcher that was neither dropped nor evicted from |
| Resume.CleanCutResumesRight | kvservice/watch.go:92-142 | a stream that breaks after the last event of a command, in any of the three places, is taken up rightly |
| Resume.ResumeLosesHalfATransaction | kvservice/watch.go:61-63 | for any transaction of two puts on different keys, a stream that breaks between its events never brings the second |
| Resume.ResumeInTheOverlap | kvservice/watch.go:120-142 | a run in which the client has read every event and, taken up, keeps an older value |
| Service.CommitChan.Send | kvservice/kvservice.go:1123-1125 | never on a closed or full channel |
| Service.KVService.constructor | kvservice/kvservice.go:118-134 | a new service is in the machine's initial state with no snapshot taken |
| Service.KVService.Apply | kvservice/kvservice.go:1044-1118 | the locked part of a command is the machine's step and answer; it panics if and only if the machine crashes |
| Service.KVService.WriteStore | kvservice/kvservice.go:1067-1102 | the write kinds change the real indexed store as the machine says and report what it reports |
| Service.KVService.RevokeAll | kvservice/kvservice.go:1093-1102 | revoking lease by lease reports and removes the keys one scan would |
| Service.KVService.Notify | kvservice/kvservice.go:1120-1126 | the subscription at the index, if any, is gone, holds the one reply and is closed; no other channel changes |
| Service.KVService.EmitEvents | kvservice/kvservice.go:1128-1204 | pushes a sequence of events the machine permits, and fans it out |
| Service.KVService.HandleCommand | kvservice/kvservice.go:1044-1209 | one committed command does to the whole service what the machine says: state, reply, channel, events, fan-out, snapshot |
| Service.KVService.RunUpdater | kvservice/kvservice.go:1013-1040 | a whole run over commands, config changes and snapshots in any order follows the machine input by input, with its replies, legal events and snapshot index, up to a crash; with no install in it the events turn the object's data before into its data after |
| Updater.QuietRun | kvservice/kvservice.go:1013-1040 | with no install among its inputs the loop runs its commands as one log, and its events are legal for that log |
| Updater.LoopIsClusterNode | kvservice/kvservice.go:1013-1040 | in every interleaving with the rest of the cluster, the loop's state and snapshot index are those of its node in the cluster model |
| Updater.LoopStateIsARun | kvservice/kvservice.go:965-1040 | so whatever mix of entries and snapshots it was fed, the loop ends in the state of running all commands of its part of the log, deadlines aside |
| Service.KVService.EncodeSnapshot | kvservice/kvservice.go:897-916 | the snapshot holds the whole machine state |
| Service.KVService.MaybeSnapshot | kvservice/kvservice.go:937-954 | a snapshot is taken if and only if the gate is open, the threshold is reached and encoding succeeds |
| Service.KVService.HandleSnapshot | kvservice/kvservice.go:970-995 | the service ends in the state the snapshot was taken in and exactly the covered requests are cancelled; a snapshot that does not decode changes nothing |
| Service.KVService.CreateCommitSubscription | kvservice/kvservice.go:1249-1260 | a fresh channel for a new index; for a taken index nothing changes |
| Service.KVService.ExpiryProposal | kvservice/kvservice.go:190-198 | proposes exactly the expired leases, with no client id, and nothing if there are none |

## Left out

- Raft itself: the log is taken as agreed and delivered in index order, and snapshots as coming from a prefix of it.
- HTTP handlers, JSON decoding of requests, logging, response delays and shutdown: plumbing around the apply machine.
- Membership, the peer book and its persistence: shallow map updates that snapshots do not carry. A config change entry only takes up a log index.
- Client networking, leader discovery, retries by timeout and the CLI.
- Liveness of lease expiry: depends on tickers and on reaching a leader.
- The race between submitting a command and creating its subscription, and subscriptions left behind by clients that went away.
- 64-bit wrap-around of revisions, lease ids and request ids: these counters are unbounded integers. Lease deadlines and `ParseInt` do follow int64.
- A transaction command without its payload, which would crash the process: the command type always carries it.
- Strings are sequences of code points, so strings that are not valid UTF-8 are not modelled.
- Locks are not modelled as objects. `DataStore` and `KVService` methods run one at a time; what may interleave is modelled step by step in `WatchProtocol` and `CommitSubs`.
- JSON text other than what the server writes: `Json.Decode` reads that text and its beginnings, not all that `json.Unmarshal` accepts.
- Service.KVService.HandleSnapshot: a snapshot that decodes is taken to have lease indexes that agree, as `EncodeSnapshot` produces.
- Retry.FilterExact: is about logs without a command of unknown kind, on which the process stops.
