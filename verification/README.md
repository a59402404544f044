# A verified model of the hard parts of resource-agents

This project models the parts of the ClusterLabs resource agents whose correctness depends on state,
time or order, and proves what they promise. `dafny verify dfyconfig.toml` checks all of it.

**SF-EX, the shared-disk lock.** Nodes exclude each other through one disk block: guard read,
reservation write, collision check, extension, and a heartbeat that advances a counter modulo 1000.
A node that finds a foreign lock waits `lock_timeout` and takes it over only if the counter stood still.

- `SfexProtocol` is the lock as a timed transition system over any number of nodes. Every block read
  and every block write is a step of its own, and crashes, restarts and termination may come between
  any two. `Enabled` and `Apply` are the code, `Timely` holds the timing hypotheses. `Safety` is
  mutual exclusion over all timely runs.
- `SfexRuns` has what holds along runs: an acquired lock lasts, the counter never goes back, the last
  of several colliding reservers wins, and a sole contender acquires within a bound.
- `SfexTightness` and `SfexHypotheses` show that the timing hypotheses are needed: mutual exclusion
  holds if and only if the two timeout inequalities do, and dropping any one of the other four rules
  admits two holders.
- `SfexEndings` has how a node leaves: it is fenced exactly when its lock is lost, which happens if and
  only if the timeouts are not safe, and a terminated holder has unlocked the block in time.
- `SfexCodec` and `SfexDevice` are the on-disk format and the byte device. `SfexDaemon` is the daemon as
  imperative code over those bytes. It is proved to perform the protocol steps, so that mutual exclusion
  holds of any timely interleaving of daemons on one byte image (`ClusterRun`).

**IPaddr2's cluster IP.** `ClusterIp` models the firewall chain, the address, the ARP rule and the
multicast MAC of a node, and the start and stop of clone instances over them, on nodes in any state. After
any interleaving of starts and stops on any number of clean nodes a packet is accepted by exactly one
node if and only if its instance is started on exactly one (`RunCluster`). A stop undoes a start to
the last rule. What a node accepts after a start is stated for every state it may have been in before,
rules flushed or deleted by hand included (`StartAccepts`).

**storage_mon.** `StorageMon` is the daemon's state machine over interleaved child exits, SIGCHLD, expiry
timers and round timers. `StorageMonitor` has its handlers and the one-shot mode as imperative code.
`StorageScore` says what a round should score, from the order of its events alone.

**Smaller algorithms.** `Findif` (route selection), `Ipv6Addr` (prefix match and address life cycle),
`TcpChecksum` (one's-complement checksums) and `Unmount` (nested unmount order). `Bits`, `Bytes` and
`Sequences` have what they share.

## Hypotheses of the SF-EX theorems

Time is real-valued and every block access is atomic and instantaneous. The block can be read at first; then
it can be read ever after. There is one daemon per node name. Beyond the code, `Timely` demands:

1. A reservation write follows its guard read (or re-read) within `delta`.
2. A live reserver or holder writes again within `writeGap`.
3. `delta < collision_timeout` and `writeGap + delta < lock_timeout`.
4. A node name is not restarted within `delta` of its own reservation write.
5. A node that finds its own lock on termination has written its reservation.
6. That write was more than `delta` ago.
7. The counter moves less than 1000 steps during one takeover wait.

Hypothesis 5 covers a case that is easy to miss: SIGTERM between the guard read of the node's own stale
lock and its reservation write makes the release handler rewrite the old record, after another node
may have taken over. `UnreservedRuleNeeded` is a run in which that ends with two holders.

## Where code and documentation disagree

The model follows the code.

- The comments in `tools/sfex.h` give the magic number as four non-printable bytes, the counter range
  as 1 to 999 and the initial node name as spaces. The code uses "SFEX", starts at 0, wraps to 0 and
  writes an empty name.
- The comments on `lock_index_check` speak of the number of locks only. The code accepts zero and
  negative indices too, and rejects a block size that is not the sector size.
- `findif` fails not only when no route with a finite metric matches. A matching route with metric
  `LONG_MAX` raises the mask to beat, and hides later routes with smaller masks. `Select` has the exact
  condition, and `ShadowedRouteLost` an example.
- `storage_mon` can score more than all devices together when the interval is shorter than the
  timeout, since the expiry timer of one round then runs on into the next. `ScoreBoundedExactly` has the
  exact condition. Timers fire in the order of their deadlines and, on a tie, in the order in which they were
  armed; the code arms the expiry timer of a round before the next round timer.
- `stop_addr6` reports success although the address still runs when several entries match. `StopAddr`
  has the exact condition, and `StopLeavesSecondLink` an example.
- `ip_start` and `ip_stop` judge a node by whether the address, the base rules and the bucket rule are there,
  not by where they stand, and with nft they take the table for the base rules. So a start repairs a node
  whose rules are gone only if the base rules count as missing, and at once only if the MAC is gone too.
  `StartAccepts` has the exact outcome. Failing states are an nft table that was flushed and kept, on which
  a start succeeds and every packet is accepted (`StartOfFlushed`); a bucket rule that a new drop rule
  comes to stand above, which counts as served while its packets are dropped (`BuriedBucketDropped`); and a
  MAC left without the address, after which every start fails (`LeftoverMacBlocks`). A stop can leave such a
  MAC (`StopOfFlushed`), and one that fails at the MAC opens the node (`FailedStopOpensNode`).
- The comments in `heartbeat/Filesystem` speak of paths. The code greps for them as patterns, so a stop of a
  mount point with special characters may report what is not so. `GrepExactly` says when it does not, and
  `StopAll` what its result means in any case.

## Model

| member | source | states |
|---|---|---|
| `SfexTypes.NextCountWraps` | tools/sfex.h:164-169 | From any value the format can hold the counter macro counts up and, from 0 on, modulo 1000 |
| `SfexTypes.SameCountSameTotal` | tools/sfex_daemon.c:53-57 | Two un-wrapped counters less than one lap apart have equal wrapped values only if they are equal |
| `SfexProtocol.GuardReadFindsQuiet` | tools/sfex_daemon.c:44-49 | A guard read that lets the node pass finds no reserver and no holder behind the block |
| `SfexProtocol.RereadFindsQuiet` | tools/sfex_daemon.c:49-58 | A takeover wait that ends on an unmoved count has outlasted every live reserver and holder |
| `SfexProtocol.ReserveInv` | tools/sfex_daemon.c:60-67 | The reservation write keeps the protocol invariant, also when it overwrites another reservation |
| `SfexProtocol.CheckFindsNoGuard` | tools/sfex_daemon.c:76-87 | A node that passes the collision check finds no other node between guard read and reservation write |
| `SfexProtocol.HeartbeatInv` | tools/sfex_daemon.c:92-96 | The extension and heartbeat writes keep the invariant |
| `SfexProtocol.ReleaseWriteInv` | tools/sfex_daemon.c:154-179 | The release write keeps the invariant |
| `SfexProtocol.StepInv` | tools/sfex_daemon.c:42-187 | Every timely step of every node keeps the invariant, including crash, restart and termination |
| `SfexProtocol.Safety` | tools/sfex_daemon.c:42-98 | In every timely run of any number of nodes at most one live node is past the collision check, at every moment |
| `SfexProtocol.HolderNeverFenced` | tools/sfex_daemon.c:137-143 | In every timely run the branch of update_lock that reboots the node is unreachable |
| `SfexRuns.CheckSecuresLock` | tools/sfex_daemon.c:76-97 | At a passed collision check no node is between guard read and reservation write, and from then on the block stays locked under that node's name until the node writes its release or dies |
| `SfexRuns.ReserveFindsNoHolder` | tools/sfex_daemon.c:60-67 | No contender ever writes its reservation while another node is past the check |
| `SfexRuns.CounterStep` | tools/sfex_daemon.c:92-152 | No write lowers the un-wrapped counter, and each extension or heartbeat raises it by one |
| `SfexRuns.CounterNeverDecreases` | tools/sfex_daemon.c:42-187 | Along every timely run the un-wrapped counter on disk never goes back |
| `SfexRuns.EqualCountsMeanSilence` | tools/sfex_daemon.c:49-58 | Equal wrapped counts at the two ends of a takeover wait mean that no node extended or heartbeat in between |
| `SfexRuns.LastReserverAcquires` | tools/sfex_daemon.c:69-87 | If no contender ends, the node that wrote the last of several colliding reservations holds the lock within delta + writeGap |
| `SfexRuns.SoleContenderAcquires` | tools/sfex_daemon.c:42-98 | A sole contender over any readable block never gives up, holds the lock after the I/O bounds plus, over a foreign lock only, lock_timeout, and has advanced the count by two plus its heartbeats, modulo 1000 |
| `SfexRuns.AcquisitionExists` | tools/sfex_daemon.c:42-98 | From every such state there is such a run, with any number of heartbeats, which takes exactly the sleeps of the code until the lock is held |
| `SfexRuns.AcquisitionLasts` | tools/sfex_daemon.c:341-344 | From every such state there is such a run past any given moment, with the lock held |
| `SfexTightness.SlowReserverBreaksIn` | tools/sfex_daemon.c:69-87 | With delta >= collision_timeout two nodes can hold the lock |
| `SfexTightness.ShortLeaseBreaks` | tools/sfex_daemon.c:49-58 | With lock_timeout <= writeGap two nodes can hold the lock |
| `SfexTightness.LateCollisionBreaks` | tools/sfex_daemon.c:49-67 | With writeGap < lock_timeout <= writeGap + delta two nodes can hold the lock |
| `SfexTightness.SafeExactlyWithinTimeouts` | tools/sfex_daemon.c:42-98 | Mutual exclusion holds in all reachable states if and only if delta < collision_timeout and writeGap + delta < lock_timeout |
| `SfexHypotheses.RestartRuleNeeded` | tools/sfex_daemon.c:42-67 | Without hypothesis 4 every safe configuration admits two holders |
| `SfexHypotheses.UnreservedRuleNeeded` | tools/sfex_daemon.c:154-187 | Without hypothesis 5 every safe configuration admits two holders |
| `SfexHypotheses.RecentRuleNeeded` | tools/sfex_daemon.c:154-187 | Without hypothesis 6 every safe configuration admits two holders |
| `SfexHypotheses.LapRuleNeeded` | tools/sfex_daemon.c:49-58 | Without hypothesis 7 every safe configuration whose holder can heartbeat in time admits two holders |
| `SfexEndings.FencedExactly` | tools/sfex_daemon.c:137-143 | Timely or not, a step fences a node if and only if it is that node's update and the block is not a lock in its name; an update that finds its own lock goes on |
| `SfexEndings.DisplacedHolderFenced` | tools/sfex_daemon.c:137-143 | The displaced node of a two-holder state is fenced at its next update |
| `SfexEndings.FencedExactlyOutside` | tools/sfex_daemon.c:128-152 | No reachable state has a fenced node if and only if the timeouts are safe, wherever a holder can heartbeat in time |
| `SfexEndings.TerminationReleases` | tools/sfex_daemon.c:154-187 | From every phase of a running node SIGTERM over its own lock leads to a write that unlocks the block, keeps count and owner and ends the node; over another block it ends without a write |
| `SfexEndings.TerminatedUnlocks` | tools/sfex_daemon.c:154-187 | Along every timely run a terminated node that is not killed has unlocked its block, count and owner unchanged, at the latest writeGap after its last write |
| `SfexEndings.CrashLeavesLock` | tools/sfex_daemon.c:100-126 | A node that dies leaves the block as it is |
| `SfexEndings.SleepsKept` | tools/sfex_daemon.c:42-98 | Whatever others do, a node sleeps at least lock_timeout before taking over, collision_timeout before its check and monitor_interval between heartbeats |
| `SfexCodec.SlotReadsBack` | tools/sfex_lib.c:252-257 | A decimal field of any width reads back as the number if and only if its text fits, and its last byte is always NUL |
| `SfexCodec.LockRoundTrip` | tools/sfex_lib.c:252-257 | A lock record survives encoding and decoding if and only if -100 < count < 1000 and the name is a C string of at most 255 bytes |
| `SfexCodec.ControlRoundTrip` | tools/sfex_lib.c:190-199 | The control record reads back if and only if the sector size has at most seven digits |
| `SfexCodec.DecodedFits` | tools/sfex_lib.c:418-429 | Whatever bytes a block holds, a record read without error can be written and read again, and its count is that of some un-wrapped counter |
| `SfexCodec.DecodeLockExactly` | tools/sfex_lib.c:418-427 | A lock block is read if and only if its status letter and its two terminators are those of some written record, and then the record has that status |
| `SfexCodec.PaddingIgnored` | tools/sfex_lib.c:418-429 | Whatever follows the 261 bytes of a written record, it reads back |
| `SfexCodec.DecodeControlExactly` | tools/sfex_lib.c:334-355 | A control block is read if and only if magic and terminators are those sfex_init writes and the version reads as 1 |
| `SfexCodec.AtoiReads` | tools/sfex_lib.c:428-428 | A number field is read past white space and a sign up to the first character that is no digit |
| `SfexCodec.LockFields` | tools/sfex.h:150-158 | Status letter, count, name and zero padding are at the offsets of the record layout |
| `SfexCodec.LockByHand` | tools/sfex.h:150-158 | A held lock, byte for byte |
| `SfexCodec.FreshLockByHand` | tools/sfex_lib.c:144-164 | A fresh lock, byte for byte |
| `SfexCodec.ControlByHand` | tools/sfex.h:107-113 | A control block, byte for byte |
| `SfexDevice.PutGet` | tools/sfex_lib.c:259-284 | A written block reads back, and every other block reads as before |
| `SfexDevice.OffsetIsProduct` | tools/sfex_lib.c:262-262 | Block index starts at blocksize times index |
| `SfexDevice.DiskHoldsLastWritten` | tools/sfex_lib.c:239-287 | After sfex_init and any sequence of daemon writes every lock block reads as the record last written to it, the control block as initialised, and the bytes behind the meta-data are untouched |
| `SfexDevice.Device.Print` | tools/sfex_lib.c:192-199 | The byte loop of a field prints the truncated, NUL-terminated text into its slot and touches no other byte |
| `SfexDevice.Device.WriteControlData` | tools/sfex_lib.c:177-222 | The buffer is filled with the encoded control record and replaces block 0 only |
| `SfexDevice.Device.WriteLockData` | tools/sfex_lib.c:239-287 | The buffer is filled with the encoded lock record and replaces the block at the index only |
| `SfexDevice.Device.ReadLockData` | tools/sfex_lib.c:376-437 | The result is the decoded block at the index, or a failure beyond the end of the device |
| `SfexDevice.Device.ReadControlData` | tools/sfex_lib.c:299-358 | The result is the decoded block 0, or a failure |
| `SfexDevice.Device.LockIndexCheck` | tools/sfex_lib.c:450-474 | An index is accepted if and only if the control block can be read, is for this sector size and has that many locks; on a formatted device exactly the indices up to numlocks are |
| `SfexDevice.Device.Initialize` | tools/sfex_init.c:160-176 | sfex_init succeeds if and only if the device holds numlocks + 1 blocks, leaves it formatted and the bytes behind untouched |
| `SfexDaemon.Daemon.GuardRead` | tools/sfex_daemon.c:44-49 | Over a readable block the daemon waits exactly for a foreign lock, over another it ends; this is the protocol's guard read |
| `SfexDaemon.Daemon.Reread` | tools/sfex_daemon.c:53-57 | The read after the takeover wait is the protocol's re-read; over an unreadable block the comparison is with the record read before |
| `SfexDaemon.Daemon.Reserve` | tools/sfex_daemon.c:60-67 | The block becomes a lock in the daemon's name with the next count, no other block changes; this is the protocol's reservation |
| `SfexDaemon.Daemon.Check` | tools/sfex_daemon.c:80-86 | The collision check is the protocol's check; over an unreadable block the comparison is with the record read before |
| `SfexDaemon.Daemon.Extend` | tools/sfex_daemon.c:92-96 | The block becomes the daemon's lock with the next count, no other block changes; this is the protocol's extension |
| `SfexDaemon.Daemon.UpdateRead` | tools/sfex_daemon.c:130-143 | The daemon is fenced if and only if it reads a block that is not a lock in its name, goes on over its own lock and ends over an unreadable one; this is the protocol's read |
| `SfexDaemon.Daemon.UpdateWrite` | tools/sfex_daemon.c:145-151 | The block becomes the daemon's lock with the next count, no other block changes; this is the protocol's heartbeat |
| `SfexDaemon.Daemon.TermRead` | tools/sfex_daemon.c:158-169 | In whatever phase SIGTERM arrives, the daemon goes on to release exactly its own lock and ends otherwise; this is the protocol's read |
| `SfexDaemon.Daemon.ReleaseWrite` | tools/sfex_daemon.c:171-177 | The block is unlocked with count and name kept, no other block changes, and the daemon ends; this is the protocol's release |
| `SfexDaemon.Daemon.Perform` | tools/sfex_daemon.c:42-187 | Whatever access comes next, bytes and variables go on representing the protocol state |
| `SfexDaemon.Daemon.AcquireLock` | tools/sfex_daemon.c:42-98 | Alone on the device, acquire_lock ends with the lock taken from any readable block, the count stepped twice and every other block unchanged |
| `SfexDaemon.Daemon.ReleaseLock` | tools/sfex_daemon.c:154-179 | release_lock is the protocol's read and then its write: it unlocks exactly the daemon's own lock, keeps count and name on the block and every other block, and otherwise writes nothing |
| `SfexDaemon.ClusterStep` | tools/sfex_daemon.c:42-187 | An access by one daemon keeps all daemons on the device in step with the protocol state |
| `SfexDaemon.ClusterRun` | tools/sfex_daemon.c:42-187 | After any timely interleaving of the daemons' accesses to the device bytes at most one daemon is past its collision check and none is fenced |
| `ClusterIp.OwnWithout` | heartbeat/IPaddr2:1067-1104 | Deleting a rule of the resource deletes the first one and leaves the rules of other resources in place |
| `ClusterIp.ServesFacts` | heartbeat/IPaddr2:1209-1259 | On a serving node: address present iff drop rule present iff some bucket rule present, and the bucket rules are exactly the served instances |
| `ClusterIp.StatusServes` | heartbeat/IPaddr2:1209-1259 | On a serving node ip_served tells exactly whether the instance, another one or none is served, and never the half-configured state |
| `ClusterIp.OutcomeIsStarted` | heartbeat/IPaddr2:1271-1439 | The instances served after a history are, without duplicates, those whose last operation was a start |
| `ClusterIp.StartServes` | heartbeat/IPaddr2:1271-1352 | A start on a serving node succeeds and the node serves the instance besides what it served before; foreign rules stay |
| `ClusterIp.StopServes` | heartbeat/IPaddr2:1375-1439 | A stop on a serving node succeeds and the node serves what it served before without the instance, down to a clean node; foreign rules stay |
| `ClusterIp.StopUndoesStart` | heartbeat/IPaddr2:1271-1439 | Stopping an instance right after its start gives back the state before, to the last rule |
| `ClusterIp.StartAccepts` | heartbeat/IPaddr2:1271-1352 | From every state: a start succeeds unless the MAC is there and the address or a base rule is not; afterwards the node accepts what it did (served), that and the instance (partial), or the instance alone (otherwise), besides IPv6 advertisements; a failed one closes the node |
| `ClusterIp.StatusExactly` | heartbeat/IPaddr2:1246-1257 | On a node in any state ip_served goes by the address, by the presence of every rule that a set-up inserts (with nft, of the table) and by the bucket rule |
| `ClusterIp.StopOfUnserved` | heartbeat/IPaddr2:1394-1439 | A stop of what is not served changes nothing, and one without base rules takes the address off and leaves every rule and the MAC |
| `ClusterIp.StopAccepts` | heartbeat/IPaddr2:1375-1439 | From every state: as long as a bucket rule is left, packets of other instances are accepted as before a stop; with the address off none is; a successful stop that keeps the address changes nothing or leaves a bucket |
| `ClusterIp.FailedStopOpensNode` | heartbeat/IPaddr2:1418-1423 | Stopping the only instance fails exactly if the MAC or, with iptables, the ARP rule is gone, and then the node accepts every packet |
| `ClusterIp.StartOfFlushed` | heartbeat/IPaddr2:1304-1326 | With the address there and the rules flushed: if the nft table was kept, a start succeeds and every packet is accepted; else it succeeds if and only if the MAC is gone, else the next one does, and then the node serves this instance alone if and only if no ARP rule was left |
| `ClusterIp.StopOfFlushed` | heartbeat/IPaddr2:1394-1439 | On such a node a stop takes nothing off if the nft table was kept and the address otherwise, so that the node is clean if and only if neither table, MAC nor ARP rule was left |
| `ClusterIp.BuriedBucketDropped` | heartbeat/IPaddr2:1246-1257 | With iptables and the drop rule gone, starting one instance makes another whose rule is still there count as served while its packets are dropped |
| `ClusterIp.LeftoverMacBlocks` | heartbeat/IPaddr2:1304-1308 | From a state with the MAC and without the address, over every sequence of starts and stops, every start fails and the address stays off |
| `ClusterIp.AcceptsServed` | heartbeat/IPaddr2:1163-1198 | Under first-match evaluation a serving node accepts exactly its own buckets, and with IPv6 every neighbour advertisement |
| `ClusterIp.AcceptsStarted` | heartbeat/IPaddr2:1163-1198 | After any history a node accepts a bucket if and only if that instance was started last |
| `ClusterIp.ExactlyOnce` | heartbeat/IPaddr2:1067-1198 | On nodes that serve the outcomes of any histories a packet is accepted by exactly one node if and only if its instance is started on exactly one |
| `ClusterIp.Node.CipDropInsert` | heartbeat/IPaddr2:1067-1104 | The drop rule and, with IPv6, the advertisement rule above it go on top of the chain |
| `ClusterIp.Node.CipDropDelete` | heartbeat/IPaddr2:1067-1104 | With nft the whole table goes; with iptables the first copies of the two rules go, and the command fails exactly if one is missing |
| `ClusterIp.Node.CipMangle` | heartbeat/IPaddr2:1109-1132 | The ARP rule is inserted or deleted where ARP mangling is used, and deleting a missing one fails with iptables only |
| `ClusterIp.Node.CipMaddr` | heartbeat/IPaddr2:1137-1145 | The multicast MAC is present exactly after an insertion, and the command fails exactly if nothing changed |
| `ClusterIp.Node.CipSetup` | heartbeat/IPaddr2:1150-1158 | All three parts are done whatever fails, and success means that each of them found what it needs |
| `ClusterIp.Node.CipNodeInsert` | heartbeat/IPaddr2:1163-1198 | The bucket rule goes on top of the chain |
| `ClusterIp.Node.CipNodeDelete` | heartbeat/IPaddr2:1163-1198 | iptables deletes the first copy and fails without one; nft deletes the only copy, does nothing without one and fails on several |
| `ClusterIp.Node.IpServed` | heartbeat/IPaddr2:1209-1259 | The status is that of the address, the base rules and the bucket rule, in this order |
| `ClusterIp.Node.IpStart` | heartbeat/IPaddr2:1271-1352 | On a node in any state the new state and the exit code are those StartState gives, for which the lemmas above hold |
| `ClusterIp.Node.IpStop` | heartbeat/IPaddr2:1375-1439 | On a node in any state the new state and the exit code are those StopState gives, for which the lemmas above hold |
| `ClusterIp.Node.NoBucketLeft` | heartbeat/IPaddr2:1410-1417 | The bucket loop finds the address deletable exactly if no bucket rule of the cluster is left |
| `ClusterIp.Node.RunOperations` | heartbeat/IPaddr2:1271-1439 | Every operation of any sequence of starts and stops from a clean node succeeds, the node serves exactly the outcome of that history, and foreign rules are as before |
| `ClusterIp.RunCluster` | heartbeat/IPaddr2:1271-1439 | After starts and stops in any order on any number of clean nodes a packet is accepted by exactly one node if and only if its instance is started on exactly one; every operation succeeds and foreign rules stay |
| `StorageScore.ScoreReaped` | tools/storage_mon.c:295-309 | A test that ends in time adds its device's score once, and only if it failed |
| `StorageScore.ScoreExpired` | tools/storage_mon.c:392-413 | The expiry adds the score of each device still under test once |
| `StorageScore.ScoreBounds` | tools/storage_mon.c:278-326 | A round scores at most the sum of all scores, and more than zero if and only if some device is bad |
| `StorageMon.StepInv` | tools/storage_mon.c:278-527 | Every handler keeps the invariant that ties table, counters and replies to what happened so far |
| `StorageMon.RoundAccounting` | tools/storage_mon.c:264-326 | In every interleaving the finished tests and those in the table add up to all devices, and the score counts each device that failed in time or ran at expiry exactly once |
| `StorageMon.TableSound` | tools/storage_mon.c:216-276 | In every run of every configuration the table has an entry for each device, its pids differ, and every child that is waited for is in it |
| `StorageMon.EveryChildFound` | tools/storage_mon.c:264-276 | Every child that waitpid returns is found in the table, so the missing check of -1 is harmless |
| `StorageMon.SigchldTakesAll` | tools/storage_mon.c:284-324 | One SIGCHLD takes every waiting child: none waits afterwards, none of their pids is in the table, all are counted, and each has its end and exit status logged under its device |
| `StorageMon.RoundArmsNext` | tools/storage_mon.c:421-527 | Every round, also one skipped while tests run, arms the next round timer; a skipped one changes nothing else, any other starts a fresh test of every device with its own expiry timer |
| `StorageMon.ReplyContract` | tools/storage_mon.c:594-633 | Over all runs a client is told -2 until a first failure or completed round, then the present round's score if positive, else that of the last completed round, never more than the sum of all scores; -1 if its request is malformed |
| `StorageMon.OverlappingRoundsOvercount` | tools/storage_mon.c:507-520 | With interval < timeout a run scores more than all devices together, and tells a client so |
| `StorageMon.ScoreBoundedExactly` | tools/storage_mon.c:392-527 | No run scores more than all devices together if and only if the interval is at least the timeout, and likewise for what clients are told |
| `StorageMonitor.Monitor.IsChildRunning` | tools/storage_mon.c:216-226 | True exactly if some test is in the table |
| `StorageMonitor.Monitor.FindChildPid` | tools/storage_mon.c:264-276 | The first table entry with the pid, or none |
| `StorageMonitor.Monitor.ReapNext` | tools/storage_mon.c:286-321 | The work for one child is the state machine's |
| `StorageMonitor.Monitor.SigchldHandler` | tools/storage_mon.c:278-326 | The handler is the state machine's SIGCHLD step, over all waiting children |
| `StorageMonitor.Monitor.ChildTimeoutHandler` | tools/storage_mon.c:392-413 | The handler is the state machine's expiry step |
| `StorageMonitor.Monitor.TestDeviceMain` | tools/storage_mon.c:421-527 | In daemon mode it is the state machine's round step, skipped while tests run |
| `StorageMonitor.Monitor.MsgProcess` | tools/storage_mon.c:603-614 | The reply is the state machine's |
| `StorageMonitor.Monitor.Serve` | tools/storage_mon.c:278-633 | The handlers over any run of events, followed by a query, answer by the reply contract |
| `StorageMonitor.Poll` | tools/storage_mon.c:469-491 | One polling pass judges each device by whether its test has ended and how, once |
| `StorageMonitor.OneShot` | tools/storage_mon.c:463-506 | The one-shot mode scores each device that failed in time or did not end in time exactly once |
| `StorageMonitor.OneShotCounts` | tools/storage_mon.c:463-506 | That score is the sum over every device but those whose test ended well within the limit |
| `StorageMonitor.ModesAgree` | tools/storage_mon.c:463-506 | A daemon round and a one-shot check with the same verdicts give the same score |
| `Findif.Select` | tools/findif.c:203-224 | The chosen route matches and no matching route beats it in metric and mask, ties going to the last; failure if and only if the table does not parse or all finite matching routes are shadowed |
| `Findif.PickNext` | tools/findif.c:213-218 | One comparison of the loop keeps the pick right for one more route |
| `Findif.MatchIsPrefix` | tools/findif.c:213-213 | A contiguous mask in the file's byte order matches exactly the addresses that share the route's prefix |
| `Findif.FileMaskOrders` | tools/findif.c:214-214 | Comparing byte-swapped masks compares prefix lengths |
| `Findif.LongestPrefixWins` | tools/findif.c:203-224 | With equal metrics and contiguous masks the choice is the longest-prefix match of section 5.1 of RFC 4632 |
| `Findif.BestUnbeaten` | tools/findif.c:213-218 | No matching route beats the choice in metric at as large a mask or in mask at as low a metric, and of equal ones it is the last |
| `Findif.ShadowedRouteLost` | tools/findif.c:212-224 | A table on which the search fails although a matching route with a finite metric exists |
| `Ipv6Addr.WordsMeanPrefix` | heartbeat/IPv6addr.c:484-505 | Agreement of the four masked words is agreement of the first plen bits (section 2.3 of RFC 4291), for all lengths from 0 to 128 |
| `Ipv6Addr.FullPrefix` | heartbeat/IPv6addr.c:484-505 | All 128 bits agree only for equal addresses |
| `Ipv6Addr.BuildMask` | heartbeat/IPv6addr.c:484-495 | The mask words have exactly the leading ones of the prefix length |
| `Ipv6Addr.SameUnderMask` | heartbeat/IPv6addr.c:484-505 | The comparison succeeds if and only if the first plen bits agree, or the addresses are equal where no mask is used |
| `Ipv6Addr.ScanIf` | heartbeat/IPv6addr.c:421-516 | The result is the first entry, before any line that does not parse, that passes the scope, length, name and prefix tests |
| `Ipv6Addr.Scan` | heartbeat/IPv6addr.c:421-516 | The first-match search finds an entry that satisfies the query if and only if there is one |
| `Ipv6Addr.ScanFirst` | heartbeat/IPv6addr.c:507-512 | Of several entries that satisfy the query the first is found |
| `Ipv6Addr.HitExactly` | heartbeat/IPv6addr.c:454-505 | An entry counts for an address exactly if it is that address, has the length asked for, and is global or, with its link given, link-local |
| `Ipv6Addr.PlaceHitExactly` | heartbeat/IPv6addr.c:454-506 | An entry counts for a place exactly if the address lies under its prefix, by the same rules |
| `Ipv6Addr.ReadableStops` | heartbeat/IPv6addr.c:445-452 | Everything before the first line that does not parse is read, and nothing behind it |
| `Ipv6Addr.NoPlaceExactly` | heartbeat/IPv6addr.c:519-530 | There is no place if and only if no entry has the address under its prefix and link or length was not given |
| `Ipv6Addr.PlaceOnLink` | heartbeat/IPv6addr.c:519-530 | The chosen place honours the caller's interface and length, and unless both were given it is an interface with an address under the same prefix |
| `Ipv6Addr.StatusOfNew` | heartbeat/IPv6addr.c:401-408 | After an assignment status succeeds with the original arguments exactly if the scan looks at the address's scope |
| `Ipv6Addr.StopUndoesStart` | heartbeat/IPv6addr.c:376-398 | The entry a stop finds after a start is the one assigned, and without it the table is as before |
| `Ipv6Addr.Kernel.GetIf` | heartbeat/IPv6addr.c:533-536 | The first entry of exactly this address |
| `Ipv6Addr.Kernel.FindIf` | heartbeat/IPv6addr.c:519-530 | The place of the first entry under whose prefix the address falls, else what the caller gave in full; none if and only if neither exists |
| `Ipv6Addr.Kernel.StatusAddr` | heartbeat/IPv6addr.c:401-408 | Running if and only if some entry matches exactly |
| `Ipv6Addr.Kernel.StartAddr` | heartbeat/IPv6addr.c:316-355 | A running address is left alone; otherwise it is assigned at find_if's place if and only if the kernel takes it; success, table and later status follow in every case; with link and length given and no entry in the way exactly that entry is added |
| `Ipv6Addr.Kernel.StopAddr` | heartbeat/IPv6addr.c:376-398 | A stopped address is left alone; otherwise the first matching entry goes, and the address is down afterwards if and only if at most one entry matched |
| `Ipv6Addr.StopLeavesSecondLink` | heartbeat/IPv6addr.c:376-398 | A table with the same global address on two links, on which a stop without a link leaves the address running |
| `TcpChecksum.Uint16Checksum` | tools/tickle_tcp.c:55-67 | The loop computes the sum of the big-endian words modulo 2^32, without wrap-around up to 131070 bytes, an odd last byte padded with zero |
| `TcpChecksum.OddByteIsPadded` | tools/tickle_tcp.c:63-65 | An odd last byte counts as if a zero byte followed |
| `TcpChecksum.TwoFoldsSuffice` | tools/tickle_tcp.c:78-79 | Two folds bring every 32-bit sum below 2^16, keep it modulo 65535 and keep zero apart |
| `TcpChecksum.FieldCompletes` | tools/tickle_tcp.c:78-85 | The complement of the folded sum, zero replaced by 0xFFFF, completes the sum to 0xFFFF under the one's-complement addition of section 1 of RFC 1071 |
| `TcpChecksum.SetWordSum` | tools/tickle_tcp.c:55-67 | Storing a word in a zeroed field at an even offset adds that word to the sum |
| `TcpChecksum.Checksum4` | tools/tickle_tcp.c:69-86 | For every segment below 2^16 bytes the stored result is not zero and makes the receiver's sum over the pseudo-header of section 3.1 of RFC 793 and the segment 0xFFFF |
| `TcpChecksum.Checksum6` | tools/tickle_tcp.c:88-113 | The same over the pseudo-header of section 8.1 of RFC 8200 |
| `Unmount.UnderMeans` | heartbeat/Filesystem:433-435 | A path is below another exactly if it continues it with a slash |
| `Unmount.LessMeans` | heartbeat/Filesystem:434-434 | The order of the sort is byte order: by the first byte in which paths differ, a prefix first |
| `Unmount.SortCorrect` | heartbeat/Filesystem:433-435 | The reverse sort is a descending permutation |
| `Unmount.SubmountsChildrenFirst` | heartbeat/Filesystem:433-435 | The work list holds exactly the mounts that grep selects, each only after everything selected below itself; for a mount point without special characters these are exactly the mounts below it |
| `Unmount.GrepExactly` | heartbeat/Filesystem:834-834 | grep tells for every mount table whether a path is mounted if and only if it takes that path and no other for it |
| `Unmount.Mounts.TryUmount` | heartbeat/Filesystem:831-839 | Success exactly if grep sees no mount; only that path changes, by one mount, and only if it is not in use and nothing is mounted below it |
| `Unmount.Mounts.FsStop` | heartbeat/Filesystem:875-899 | Success exactly if grep sees no mount after the attempts; a path that grep sees is unmounted if and only if nothing is mounted below it and as many attempts meet it idle as mounts are stacked on it |
| `Unmount.Mounts.UnmountTargets` | heartbeat/Filesystem:957-974 | The loop's result is that of the mount point; with idle attempts enough every submount, bind mount and the mount point go below which grep selects everything |
| `Unmount.Mounts.StopAll` | heartbeat/Filesystem:914-981 | Success exactly if grep sees no mount on the mount point, that is, for a plain path, if it is unmounted; it goes only with everything below it; with idle attempts enough the order makes every target go below which grep selects everything; no mount goes that is not a target |

## Left out

- SF-EX: seeking, direct I/O, retry after EINTR, logging, option parsing, daemonizing and the sfex_stat printout. They do not touch the lock.
- SF-EX: the sysrq reboot and the crm_resource call. The node leaves the protocol.
- SF-EX: partial writes. A block access is one step, and one beyond the end of the device is refused as a whole.
- SF-EX: progress and mutual exclusion over a block that cannot be read. The steps of single daemons over it are modelled, and a daemon that checks its read exits.
- SfexHypotheses.LapRuleNeeded: stated for monitor_interval <= writeGap, since otherwise no holder lives to its second heartbeat.
- SfexRuns.AcquisitionExists: runs with heartbeats are stated for monitor_interval <= writeGap, for the same reason.
- SfexEndings.FencedExactlyOutside: stated for monitor_interval <= writeGap, for the same reason.
- SfexRuns.AcquisitionLasts: stated for monitor_interval <= writeGap, for the same reason.
- IPaddr2 without clone instances, with LVS support or with the link down, its parameter checks, MAC choice, hash seed and ARP senders. The hash is an arbitrary bucket number.
- IPaddr2: failure of single firewall commands other than for a present or missing rule, table or MAC. Commands succeed.
- storage_mon: failing forks, children killed by signals, shutdown and IPC transport. Children end by exit, and the pids of one round are distinct.
- findif: the search through the route command, which picks no best route, and the conversion of netmasks given by the user.
- Ipv6Addr.Kernel.StartAddr: pinging is one boolean, and advertising is left out.
- IPv6 byte order: addresses are words in host order, and htonl on both sides of the comparison is not modelled.
- TcpChecksum.Uint16Checksum: models a little-endian host; the odd-byte branch of the code differs on a big-endian one.
- IPaddr2: what nft makes of several handles in one delete command. It is taken to refuse them.
- Filesystem: what grep makes of special characters in a path. The paths it selects are parameters.
- Unmount.Mounts.FsStop: the two signalling loops are one sequence of attempts, each with an arbitrary answer to whether the mount is in use; timeouts end the sequence.
- Unmount.Mounts.StopAll: the bind mounts are given; moving the mount before unmounting, and another device found on the mount point, are left out.
- The other agents, ocf.py and the Galera and MariaDB bootstrap: wrappers over external commands whose state is not in the repository.
