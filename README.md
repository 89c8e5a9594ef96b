# Raft leader, log cache, timeouts, elections and HA mode switching, in Dafny

This project models seven small pieces of the core-edge clustering work in Neo4j and proves properties of them.

- **The Raft leader's message handler** (`Leader.handle`). It is a pure function from an incoming message and a read-only view of the member's state to an `Outcome`. It covers stepping down on a later term, log replication, the commit rule, and the "two leaders in the same term" error. The heartbeat broadcast (`sendHeartbeats`, `replicationTargets`) is a loop that appends to the caller's message list.
- **The read-through Raft log cache** (`CoolCache`). On a miss it scans a forward cursor over the durable log's append records and caches every record it reads. The scan stops at the requested index, fails with an illegal state when it overshoots, and fails with a storage error on an I/O failure.
- **The timeout service** (`ScheduledTimeoutService`). It keeps a set of armed timeouts ordered by deadline, then id, plus a queue of pending renewals. Each polling pass applies the renewals, fires the due timeouts in order, and disarms what fired.
- **The deterministic coordinator election** of the core-edge edition (`Election`) and its copy in the HA edition (`MyElection`). The member with the smallest instance id is coordinator, and it is announced only when that member is the local one.
- **The HA mode switcher's event dispatch** (`HighAvailabilityModeSwitcher`): which availability announcements a state change event causes, how it updates the available master URI and the target state, and which switch it schedules. Also modelled: the guard that refuses to become a slave of ourselves, the capped exponential retry delay, and the single-use cancellation handle.
- **The message-drop action of the Raft state explorer** (`DropMessage.advance`). It is a pure transition on the map from members to inbound message queues.

Files:

| file | modules |
|---|---|
| `wrappers.dfy` | Option and Result |
| `raft_types.dfy` | messages, log view, state view and outcome of a Raft role handler |
| `followers.dfy` | the quorum append index, by contract |
| `leader.dfy` | the leader handler |
| `cool_cache.dfy` | the log cache, its cursor and its bounded map |
| `timeout_service.dfy` | the timeout service |
| `election.dfy` | the shared coordinator rule and both election classes |
| `mode_switcher.dfy` | the HA mode switcher |
| `drop_message.dfy` | the explorer's drop action |

Member identities, message payloads and listeners are type parameters or plain identifiers. Clock readings, random jitter and cursor contents are parameters.

Modelling choices worth knowing:

- Java sets of members are sequences in iteration order, with a `Distinct` predicate where it matters.
- `RaftLog`, `FollowerStates` and `Followers.quorumAppendIndex` are not part of this model. They are given by contract:
  - the log is the sequence of its entries' terms plus the commit index;
  - `readEntryTerm` gives -1 outside `[0, appendIndex]`, because the leader reads the term at commit index -1 when it sends heartbeats from a fresh log;
  - a member that has no follower state counts as having matched -1, both in the quorum count and when the handler reads a responder's match index for a successful response (`Leader.java:145-154`);
  - the quorum append index is the highest index that a strict majority of the voting members have matched, or -1 when there is none.
- A cache scan that runs out of records yields `NotFound`, as `CoolCache.java:49-71` returns null there.
- `LruCache` is not part of this model. The cache is specified by its bound and by where its entries come from: it never holds more than `maxSize` entries, every entry it holds was put into it, and which entry it evicts is left open.
- The leader handler commits by the corrected rule `Leader.CommitOnMatch`, not by lines 165-182 as written; see Findings.

## Model

| member | source | states |
|---|---|---|
| `RaftTypes.LogView.ReadEntryTerm` | enterprise/core-edge/src/main/java/org/neo4j/coreedge/raft/roles/Leader.java:63 | the term of the entry at an index inside the log, -1 outside it |
| `Followers.QuorumAppendIndex` | enterprise/core-edge/src/main/java/org/neo4j/coreedge/raft/roles/Leader.java:174 | the quorum index is -1 or matched by a strict majority of voting members, and no higher index is |
| `Followers.QuorumCoversBelow` | enterprise/core-edge/src/main/java/org/neo4j/coreedge/raft/roles/Leader.java:174-175 | every index up to the quorum index is matched by a majority |
| `Followers.QuorumMonotone` | enterprise/core-edge/src/main/java/org/neo4j/coreedge/raft/roles/Leader.java:151-174 | raising follower match indices never lowers the quorum index |
| `Leader.Heartbeats` | enterprise/core-edge/src/main/java/org/neo4j/coreedge/raft/roles/Leader.java:57-67 | one heartbeat per replication member other than the leader, in member order |
| `Leader.SendHeartbeats` | enterprise/core-edge/src/main/java/org/neo4j/coreedge/raft/roles/Leader.java:57-67 | the loop appends exactly those heartbeats to the caller's list, after what was there |
| `Leader.HeartbeatsReachEachTargetOnce` | enterprise/core-edge/src/main/java/org/neo4j/coreedge/raft/roles/Leader.java:52-67 | a member gets a heartbeat iff it is a replication member other than the leader, exactly once, carrying the leader's term, commit index and that entry's term |
| `Leader.OnSuccessResponse` | enterprise/core-edge/src/main/java/org/neo4j/coreedge/raft/roles/Leader.java:151-154 | the responder's match index becomes the larger of the old and the reported one, and other followers are untouched |
| `Leader.CommitAsWritten` | enterprise/core-edge/src/main/java/org/neo4j/coreedge/raft/roles/Leader.java:165-182 | the commit decision as written: it tests the term at the follower's match index, then commits the quorum index |
| `Leader.CommitAsWrittenCommitsOldTermEntry` | enterprise/core-edge/src/main/java/org/neo4j/coreedge/raft/roles/Leader.java:158-182 | a concrete state where the rule as written commits an entry from an older term |
| `Leader.CommitOnMatch` | enterprise/core-edge/src/main/java/org/neo4j/coreedge/raft/roles/Leader.java:165-182 | a commit happens iff the follower progressed and the quorum index passes the commit index and holds an entry of the current term; the committed index has a majority |
| `Leader.PrevLogTerm` | enterprise/core-edge/src/main/java/org/neo4j/coreedge/raft/roles/Leader.java:214-218 | the reported term is the term of the entry at prevLogIndex (-1 for an empty log) whenever every entry appended since the leader took over is of its term; past the pre-leadership index it is the leader's term without reading the log |
| `Leader.Handle` | enterprise/core-edge/src/main/java/org/neo4j/coreedge/raft/roles/Leader.java:69-231 | an error iff a same-term append request arrives; term and commit index never decrease; a leader that stays leader keeps its term; the next role is leader or follower (commits follow the corrected rule, see Findings) |
| `Leader.HeartbeatStepsDown` | enterprise/core-edge/src/main/java/org/neo4j/coreedge/raft/roles/Leader.java:83-95 | an older heartbeat changes nothing; a current or later one makes the leader a follower and hands the heartbeat back to itself |
| `Leader.HeartbeatTimeoutBroadcasts` | enterprise/core-edge/src/main/java/org/neo4j/coreedge/raft/roles/Leader.java:97-101 | a heartbeat timeout sends the heartbeats and changes nothing else |
| `Leader.AppendRequestCases` | enterprise/core-edge/src/main/java/org/neo4j/coreedge/raft/roles/Leader.java:103-126 | an older request is refused with the leader's term and its prevLogIndex; a same-term one is an error; a later one makes the leader a follower |
| `Leader.AppendResponseFromOtherTerm` | enterprise/core-edge/src/main/java/org/neo4j/coreedge/raft/roles/Leader.java:132-143 | an older response is ignored; a later one makes the leader adopt that term, step down and clear its follower table |
| `Leader.AppendResponseInTerm` | enterprise/core-edge/src/main/java/org/neo4j/coreedge/raft/roles/Leader.java:145-187 | a success raises the match index and ships a Match; a failure ships only a Mismatch at the append index |
| `Leader.CommitAdvancesOnlyUnderRule` | enterprise/core-edge/src/main/java/org/neo4j/coreedge/raft/roles/Leader.java:165-182 | the commit index moves iff the commit rule holds, and then to the quorum index with one commit command and one commit update |
| `Leader.MatchIndicesOnlyGrow` | enterprise/core-edge/src/main/java/org/neo4j/coreedge/raft/roles/Leader.java:141-154 | no match index goes down while the leader keeps its role |
| `Leader.VoteRequestCases` | enterprise/core-edge/src/main/java/org/neo4j/coreedge/raft/roles/Leader.java:192-207 | a later-term vote request makes the leader adopt the term and step down; any other is refused with the leader's term |
| `Leader.NewEntryAppends` | enterprise/core-edge/src/main/java/org/neo4j/coreedge/raft/roles/Leader.java:209-225 | a new entry is appended right after the last index, in the leader's term, and shipped with its predecessor's index and term |
| `Leader.LeaderOnlyAppends` | enterprise/core-edge/src/main/java/org/neo4j/coreedge/raft/roles/Leader.java:170-225 | the leader never truncates: its log commands are at most one append after the last entry or one commit beyond the commit index |
| `Leader.StepsDownOnLaterTerm` | enterprise/core-edge/src/main/java/org/neo4j/coreedge/raft/roles/Leader.java:81-207 | a heartbeat, an append request, an append response or a vote request from a later term makes the leader step down |
| `Leader.VoteResponseIgnored` | enterprise/core-edge/src/main/java/org/neo4j/coreedge/raft/roles/Leader.java:81-226 | a vote response changes nothing whatever its term: the handler has no case for it, so a later term neither is adopted nor makes the leader step down |
| `RaftLogCache.RecordCursor.Next` | enterprise/core-edge/src/main/java/org/neo4j/coreedge/raft/log/CoolCache.java:49-51 | the cursor yields its next record and advances, reports the end, or fails on an I/O failure without moving |
| `RaftLogCache.LruCache.Put` | enterprise/core-edge/src/main/java/org/neo4j/coreedge/raft/log/CoolCache.java:53 | the entry is stored, other kept entries are unchanged, and the bound holds |
| `RaftLogCache.Scan` | enterprise/core-edge/src/main/java/org/neo4j/coreedge/raft/log/CoolCache.java:47-71 | where a miss scan stops and what it yields: the entry at an equal index, an illegal state past it, a storage failure on I/O failure, nothing at the end |
| `RaftLogCache.ScanFindsPresentRecord` | enterprise/core-edge/src/main/java/org/neo4j/coreedge/raft/log/CoolCache.java:49-58 | on increasing record indices, a miss returns the entry of the record with that index |
| `RaftLogCache.ScanBeyondEnd` | enterprise/core-edge/src/main/java/org/neo4j/coreedge/raft/log/CoolCache.java:49-71 | an index beyond every record reads the cursor to its end and yields null, not an error |
| `RaftLogCache.CoolCache.constructor` | enterprise/core-edge/src/main/java/org/neo4j/coreedge/raft/log/CoolCache.java:33-36 | an empty cache bounded by maxSize |
| `RaftLogCache.CachedFromAfterPut` | enterprise/core-edge/src/main/java/org/neo4j/coreedge/raft/log/CoolCache.java:49-53 | after a record read from the cursor is put into the cache, every cached entry is still either an earlier entry, unchanged, or the entry of a record read |
| `RaftLogCache.CoolCache.Get` | enterprise/core-edge/src/main/java/org/neo4j/coreedge/raft/log/CoolCache.java:38-72 | a hit returns the cached entry without moving the cursor; a miss returns what the scan yields and caches every record read; afterwards every cached entry is an earlier one, unchanged, or the entry of a record just read, and the bound holds |
| `Timeouts.CompareTo` | enterprise/core-edge/src/main/java/org/neo4j/coreedge/raft/ScheduledTimeoutService.java:214-225 | the sign orders by deadline, then id |
| `Timeouts.CompareToIsTotalOrder` | enterprise/core-edge/src/main/java/org/neo4j/coreedge/raft/ScheduledTimeoutService.java:214-242 | the order is strict and total up to id equality, and comparing equal implies being equal |
| `Timeouts.CompareToAsWritten` | enterprise/core-edge/src/main/java/org/neo4j/coreedge/raft/ScheduledTimeoutService.java:214-225 | the comparison as written, narrowed to a 32-bit int |
| `Timeouts.CompareToAsWrittenBreaksOrder` | enterprise/core-edge/src/main/java/org/neo4j/coreedge/raft/ScheduledTimeoutService.java:214-225 | deadlines 2^32 ms apart compare equal, and deadlines 2^31 ms apart each compare below the other |
| `Timeouts.TimeoutTimestamp` | enterprise/core-edge/src/main/java/org/neo4j/coreedge/raft/ScheduledTimeoutService.java:97-101 | the deadline is the clock plus the length plus a jitter in [0, range), with no jitter for range 0 |
| `Timeouts.Insert` | enterprise/core-edge/src/main/java/org/neo4j/coreedge/raft/ScheduledTimeoutService.java:76-79 | adding keeps the set sorted, loses nothing, and adds a timeout with a fresh id |
| `Timeouts.RemoveId` | enterprise/core-edge/src/main/java/org/neo4j/coreedge/raft/ScheduledTimeoutService.java:89-95 | removal keeps exactly the timeouts with other ids, still sorted |
| `Timeouts.RenewArms` | enterprise/core-edge/src/main/java/org/neo4j/coreedge/raft/ScheduledTimeoutService.java:113-120 | a renewal arms the timeout once, at its new deadline, even if it had fired or was cancelled, and keeps the others |
| `Timeouts.ApplyRenewals` | enterprise/core-edge/src/main/java/org/neo4j/coreedge/raft/ScheduledTimeoutService.java:113-120 | renewals in queue order keep the armed set sorted |
| `Timeouts.ApplyRenewalsArmsLastRenewal` | enterprise/core-edge/src/main/java/org/neo4j/coreedge/raft/ScheduledTimeoutService.java:113-120 | after the renewals, every armed timeout whose id was not queued stays, each queued id is armed once, at the deadline of its last renewal, and nothing else is armed |
| `Timeouts.DueCount` | enterprise/core-edge/src/main/java/org/neo4j/coreedge/raft/ScheduledTimeoutService.java:122-136 | the firing loop stops at the first timeout that is not due |
| `Timeouts.DuePrefixIsAllDue` | enterprise/core-edge/src/main/java/org/neo4j/coreedge/raft/ScheduledTimeoutService.java:122-136 | on the sorted set, the due prefix is exactly the due timeouts |
| `Timeouts.RemoveAll` | enterprise/core-edge/src/main/java/org/neo4j/coreedge/raft/ScheduledTimeoutService.java:138 | removeAll keeps exactly the timeouts not fired |
| `Timeouts.RemoveAllPrefix` | enterprise/core-edge/src/main/java/org/neo4j/coreedge/raft/ScheduledTimeoutService.java:109-138 | removing the fired prefix leaves exactly the rest, in order |
| `Timeouts.ApplyQueued` | enterprise/core-edge/src/main/java/org/neo4j/coreedge/raft/ScheduledTimeoutService.java:113-120 | the renewal loop computes the renewals in queue order and keeps ids unique |
| `Timeouts.FireDue` | enterprise/core-edge/src/main/java/org/neo4j/coreedge/raft/ScheduledTimeoutService.java:122-138 | it fires exactly the due timeouts, in (deadline, id) order, and keeps only timeouts that are not due |
| `Timeouts.TimeoutService.constructor` | enterprise/core-edge/src/main/java/org/neo4j/coreedge/raft/ScheduledTimeoutService.java:46-47 | no armed timeouts and no pending renewals |
| `Timeouts.TimeoutService.Create` | enterprise/core-edge/src/main/java/org/neo4j/coreedge/raft/ScheduledTimeoutService.java:69-82 | a new timeout with a fresh id and a jittered deadline is armed |
| `Timeouts.TimeoutService.Renew` | enterprise/core-edge/src/main/java/org/neo4j/coreedge/raft/ScheduledTimeoutService.java:84-87 | a renewal is only queued |
| `Timeouts.TimeoutService.Cancel` | enterprise/core-edge/src/main/java/org/neo4j/coreedge/raft/ScheduledTimeoutService.java:89-95 | the timeout is disarmed without firing and nothing else changes |
| `Timeouts.TimeoutService.Run` | enterprise/core-edge/src/main/java/org/neo4j/coreedge/raft/ScheduledTimeoutService.java:103-145 | a pass applies all renewals, fires exactly the due timeouts in order, and leaves armed only those not due |
| `CoordinatorRule.Insert` | enterprise/core-edge/src/main/java/org/neo4j/coreedge/Election.java:24-32 | adding under the id comparator keeps ids strictly ascending and drops a member whose id is present |
| `CoordinatorRule.AddAll` | enterprise/core-edge/src/main/java/org/neo4j/coreedge/Election.java:32 | adding all members keeps the set ascending, with the ids of both |
| `CoordinatorRule.SortedById` | enterprise/core-edge/src/main/java/org/neo4j/coreedge/Election.java:24-32 | the sorted set has strictly ascending ids and exactly the members' ids |
| `CoordinatorRule.AddAllKeepsFirst` | enterprise/core-edge/src/main/java/org/neo4j/coreedge/Election.java:24-32 | members with equal ids collapse into the first one to arrive |
| `CoordinatorRule.MinId` | enterprise/core-edge/src/main/java/org/neo4j/coreedge/Election.java:45-46 | the smallest instance id among the members |
| `CoordinatorRule.CoordinatorIsMinimumId` | enterprise/core-edge/src/main/java/org/neo4j/coreedge/Election.java:35-46 | no coordinator for no members; otherwise the minimum id, announced iff the first member with it is local |
| `CoordinatorRule.ElectionIgnoresArrivalOrder` | enterprise/core-edge/src/main/java/org/neo4j/coreedge/Election.java:22-46 | with unique ids, the outcome depends only on which members there are |
| `CoordinatorRule.NotifyAll` | enterprise/core-edge/src/main/java/org/neo4j/coreedge/Election.java:48-56 | every listener, in order, is told the coordinator's id |
| `CoreEdgeElection.Election.AddOutcomeListener` | enterprise/core-edge/src/main/java/org/neo4j/coreedge/Election.java:59-62 | the listener is appended |
| `CoreEdgeElection.Election.TriggerElection` | enterprise/core-edge/src/main/java/org/neo4j/coreedge/Election.java:22-57 | nobody hears anything without an elected local coordinator; otherwise every listener hears its id |
| `HaElection.MyElection.AddOutcomeListener` | enterprise/ha/src/main/java/org/neo4j/ha/MyElection.java:78-81 | the listener is appended |
| `HaElection.MyElection.TriggerElection` | enterprise/ha/src/main/java/org/neo4j/ha/MyElection.java:41-76 | the same rule as the core-edge election |
| `ModeSwitching.SlaveSwitch` | enterprise/ha/src/main/java/org/neo4j/kernel/ha/cluster/HighAvailabilityModeSwitcher.java:296-300 | the guard lets the switch to slave through toward the master iff the master's server id is not ours; it stops it with a self-as-master error iff it is, and with a no-master error iff there is no master URI |
| `ModeSwitching.SameStateOnlyRecordsUri` | enterprise/ha/src/main/java/org/neo4j/kernel/ha/cluster/HighAvailabilityModeSwitcher.java:199-210 | an event without a state change only records a non-null master URI |
| `ModeSwitching.TransitionRecordsTarget` | enterprise/ha/src/main/java/org/neo4j/kernel/ha/cluster/HighAvailabilityModeSwitcher.java:212-214 | a transition records the event URI, null included, and targets the new state |
| `ModeSwitching.TransitionAnnouncements` | enterprise/ha/src/main/java/org/neo4j/kernel/ha/cluster/HighAvailabilityModeSwitcher.java:215-243 | a transition announces at most one unavailability, for the role being left, exactly for SLAVE to TO_MASTER and a settled role to PENDING |
| `ModeSwitching.TransitionTask` | enterprise/ha/src/main/java/org/neo4j/kernel/ha/cluster/HighAvailabilityModeSwitcher.java:215-300 | which switch each new state schedules: none for MASTER or SLAVE, and none for TO_SLAVE when the guard stops it, which reports its error instead |
| `ModeSwitching.NeverSlaveOfSelf` | enterprise/ha/src/main/java/org/neo4j/kernel/ha/cluster/HighAvailabilityModeSwitcher.java:226-300 | a slave switch is scheduled only toward a master with another server id; the self-as-master error, with nothing scheduled, comes exactly from a TO_SLAVE transition toward our own server id |
| `ModeSwitching.MasterReelectedReannounces` | enterprise/ha/src/main/java/org/neo4j/kernel/ha/cluster/HighAvailabilityModeSwitcher.java:159-170 | MASTER to MASTER re-announces master availability and changes nothing |
| `ModeSwitching.SlaveStillSlaveReannounces` | enterprise/ha/src/main/java/org/neo4j/kernel/ha/cluster/HighAvailabilityModeSwitcher.java:172-183 | SLAVE to SLAVE re-announces slave availability and changes nothing |
| `ModeSwitching.OtherEventsAreStateChanges` | enterprise/ha/src/main/java/org/neo4j/kernel/ha/cluster/HighAvailabilityModeSwitcher.java:159-183 | every other event is handled as a state change |
| `ModeSwitching.ModeSwitcher.OnMasterIsElected` | enterprise/ha/src/main/java/org/neo4j/kernel/ha/cluster/HighAvailabilityModeSwitcher.java:159-170 | the fields, announcements, scheduled switches and guard errors follow the dispatch |
| `ModeSwitching.ModeSwitcher.OnMasterIsAvailable` | enterprise/ha/src/main/java/org/neo4j/kernel/ha/cluster/HighAvailabilityModeSwitcher.java:172-183 | the fields, announcements, scheduled switches and guard errors follow the dispatch |
| `ModeSwitching.ModeSwitcher.OnSlaveIsAvailable` | enterprise/ha/src/main/java/org/neo4j/kernel/ha/cluster/HighAvailabilityModeSwitcher.java:185-189 | nothing changes |
| `ModeSwitching.ModeSwitcher.OnInstanceStops` | enterprise/ha/src/main/java/org/neo4j/kernel/ha/cluster/HighAvailabilityModeSwitcher.java:191-195 | handled as a state change |
| `ModeSwitching.NextWait` | enterprise/ha/src/main/java/org/neo4j/kernel/ha/cluster/HighAvailabilityModeSwitcher.java:367-368 | the next delay is doubled plus one or capped at 300, at least 1 and never below the last |
| `ModeSwitching.WaitBounds` | enterprise/ha/src/main/java/org/neo4j/kernel/ha/cluster/HighAvailabilityModeSwitcher.java:301-368 | from 0, delays stay within [1, 300] seconds after the first failure and never decrease |
| `ModeSwitching.WaitIsCappedDoubling` | enterprise/ha/src/main/java/org/neo4j/kernel/ha/cluster/HighAvailabilityModeSwitcher.java:301-368 | the n-th delay is 2^n - 1 up to n = 8 and 300 from n = 9 on |
| `ModeSwitching.RetryBackoff.Failed` | enterprise/ha/src/main/java/org/neo4j/kernel/ha/cluster/HighAvailabilityModeSwitcher.java:362-373 | each failure advances the delay by one step and returns it |
| `ModeSwitching.CancellationHandle.constructor` | enterprise/ha/src/main/java/org/neo4j/kernel/ha/cluster/HighAvailabilityModeSwitcher.java:434 | a handle starts uncancelled |
| `ModeSwitching.CancellationHandle.Cancel` | enterprise/ha/src/main/java/org/neo4j/kernel/ha/cluster/HighAvailabilityModeSwitcher.java:442-446 | cancel sets the flag, and only on a handle not yet cancelled |
| `ExplorerActions.DropMessage` | enterprise/core-edge/src/test/java/org/neo4j/coreedge/raft/state/explorer/action/DropMessage.java:38-51 | fails without a queue; the same state for an empty queue; otherwise only that queue loses its head |
| `ExplorerActions.DropManyRemovesPrefix` | enterprise/core-edge/src/test/java/org/neo4j/coreedge/raft/state/explorer/action/DropMessage.java:38-51 | n drops remove the first n messages of that queue and nothing else |
| `ExplorerActions.DropOnEmptyIsIdentity` | enterprise/core-edge/src/test/java/org/neo4j/coreedge/raft/state/explorer/action/DropMessage.java:44-47 | once the queue is empty, dropping changes nothing |
| `ExplorerActions.DropWithoutQueueFails` | enterprise/core-edge/src/test/java/org/neo4j/coreedge/raft/state/explorer/action/DropMessage.java:42 | drops for a member without a queue fail |

## Left out

- Leader.Handle: requires that a successful same-term append response reports a match index no greater than the append index, as `Leader.java:149` asserts.
- Leader.Handle: a vote response from a later term is ignored, as `Leader.java:81-226` has no case for it. Section 5.1 of the Raft paper has a server step down on any later-term response; the model keeps the code's behaviour and states it in `Leader.VoteResponseIgnored`.
- Leader.Handle: commits follow the corrected rule `Leader.CommitOnMatch`, not `Leader.java:165-182` as written, which can commit an entry of an older term (see Findings; the code as written is `Leader.CommitAsWritten`). The same holds for `Leader.CommitAdvancesOnlyUnderRule`.
- Leader.Handle: `RaftLog.readLogEntry` is read only through the log's term sequence, and storage exceptions of the log are not modelled.
- Followers.QuorumAppendIndex: `Followers.quorumAppendIndex`, `FollowerStates` and `RaftLog` are not part of this model. They are stated by contract, as described above.
- RaftLogCache.LruCache.Put: the eviction order of `LruCache` is not modelled, only the size bound.
- RaftLogCache.CoolCache.constructor: requires a maxSize of at least 1. `CoolCache` passes any int to `LruCache`, which is not part of this model; the model assumes it refuses sizes below 1.
- RaftLogCache.CoolCache.Get: `RaftStorageException` wrapping and the exception messages are reduced to result values.
- Timeouts.TimeoutService.Create: the id generator is a static counter shared by all services; here each service has its own counter.
- Timeouts.TimeoutService.Create: a negative random range, which makes `Random.nextInt` throw, is excluded. A range above 2^31 - 1, which the int cast would truncate, is not modelled.
- Timeouts.TimeoutService.Run: the timeout handlers are calls into code this model cannot see, so what they do when triggered is not modelled. This includes handlers that re-enter the service, and exceptions that the catch-all would swallow before `removeAll`.
- Timeouts.TimeoutService: the job scheduler (`init`, `start`, `stop`), the `synchronized` blocks and the thread safety of the renewal queue are not modelled. The passes are sequential.
- Timeouts.CompareTo: it is the intended comparison, without the int narrowing of `ScheduledTimeoutService.compareTo`. The narrowing is kept separately in `CompareToAsWritten`; see Findings.
- CoordinatorRule.ElectionIgnoresArrivalOrder: order independence holds only when no two members share an instance id. Otherwise the member kept for an id is the first one to arrive.
- CoreEdgeElection.Election.TriggerElection: `instanceIdFor` is reduced to a field of the member, and what listeners do on notification is not modelled.
- ModeSwitching.ModeSwitcher: not modelled are the mode switcher executor, futures, `startModeSwitching` (which cancels and awaits the previous task), the `LifeSupport` restarts, the `SwitchToMaster`/`SwitchToSlave` calls, the immediate-retry recursion, the store id and the lifecycle methods. A scheduled switch is recorded as a task value.
- ModeSwitching.SlaveSwitch: the URI parsing in `getServerId` is reduced to an optional serverId parameter, defaulting to -1. With a null master URI the lookup throws out of `switchToSlave` before anything is scheduled; the model records this as the guard error `NoMasterUri`, next to the logged `SelfAsMaster` error, and does not model the exception propagating to the caller.
- ModeSwitching.CancellationHandle.Cancel: a second cancel trips a Java assertion; here it is a precondition.
- ExplorerActions.DropMessage: `ClusterState` is not part of this model. It is reduced to its map of queues; its other components are carried over unchanged by the copy constructor and are left out.

## Findings

| source | as written | input that shows it | evidently intended | confidence | as-written member | corrected member |
|---|---|---|---|---|---|---|
| enterprise/core-edge/src/main/java/org/neo4j/coreedge/raft/roles/Leader.java:165-182 | commits the quorum index once the entry at the follower's match index is from the current term, whatever the term of the entry at the quorum index | term 4, log terms [1, 1, 2, 4], commit index 0, voting members 1, 2, 3; member 2 had matched 2 and now matches 3, member 3 has matched 2: index 2, from term 2, is committed | commit the quorum index only when its own entry is from the current term (section 5.4.2 of the Raft paper) | not executed | Leader.CommitAsWrittenCommitsOldTermEntry | Leader.CommitOnMatch |
| enterprise/core-edge/src/main/java/org/neo4j/coreedge/raft/ScheduledTimeoutService.java:214-225 | compareTo returns the long difference of deadlines cast to int | deadlines 0 and 2^32 ms compare equal, so the sorted set drops the second timeout; deadlines 0 and 2^31 ms each compare below the other | a three-way comparison by deadline, then id | not executed | Timeouts.CompareToAsWrittenBreaksOrder | Timeouts.CompareTo |
