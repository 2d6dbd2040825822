# gowrapper cluster and sentinel helpers in Dafny

This project models the decision logic of the gowrapper Redis helpers in Dafny and proves it against
specification functions:

- **Reading `CLUSTER NODES`** (`getNodes`). The reply is trimmed of newlines, split into lines and fields, the
  address is split at `@`, the flags at `,`, and ping-sent, pong-recv and config-epoch are parsed as base-10
  int64. The first field that fails rejects the whole reply. `GetNodes` is the loop; `ParseReport` (built from
  `ParseLine` and the all-or-nothing `Collect`) is its specification.
- **Building the topology** (`ClusterInfoFormat`). Nodes are sorted into `Masters` and `Slaves` by an exact flag
  match, the id/address maps are filled (last write wins), and the temporary `NodeTmpMap` becomes the
  `MasterSlaveMaps` entries. The loop is `Absorbed`, specified by `Accumulate`/`Absorb`; the map-to-list loop is
  `MasterSlaveMaps`, which picks keys in an arbitrary order the way Go's map iteration does.
- **Fleet configuration and flushing** (`ClusterConfigCheck`, `ClusterConfigGet`, `ClusterConfigSet`,
  `ClusterFLUSHALL`), as methods of a `Fleet` class. Its field `nodes` maps each address to a `Node` record:
  whether the node answers, whether it accepts CONFIG SET, whether it accepts the flush command, its
  configuration, its `redis_version` and whether it has been flushed. The ghost field `setCalls` logs every
  `ClusterConfigSet` call as its key and value, so the contracts can say which writes a run attempts.
  - A read walks the addresses in order. It stops at the first node that does not answer, or at an answer that
    differs from a non-empty previous answer (`FaultAt`, `Consistent`, `Settled`).
  - A write happens only after a successful read, and stops at the first node that refuses it (`WithConfig`).
  - A flush walks `Masters ++ Slaves`. At the first version-3 node it relaxes `cluster-node-timeout` to
    `1800`, and after that it writes the original value back after every node (`Progress`, `AfterFlush`,
    `FlushSucceeds`, `Frame`). A run that fails stops at the first failing pass (`FailsAt`), with the error
    `RunFault` gives, the fleet `FaultState` gives and the calls `RunCalls` lists.
- **Flag lookups** (`slice.Find`, `slice.Has`), the **status codes** with `Code.Message`, and the **sentinel**
  channel catalog with the `switch m.Channel` classification.

The Go standard-library routines the code relies on are modelled in module `Text`. They are `strings.Split`,
`strings.Join` and `strings.Trim` with a one-character separator or cutset, `strings.Contains`, and
`strconv.ParseInt(s, 10, 64)` with `strconv.FormatInt`.

Where the code and its intent diverge, the model follows the code. A node flagged both `master` and `slave`
goes into `Slaves` only if its id already had an entry in `NodeTmpMap`. When the id is new, the master
branch's `continue` (redis/cluster.go:126) skips the slave branch, so such a node is not in both lists in
general (`DualRoleFirstSeen`, `DualRoleSeenBefore`).

## Model

| member | source | states |
|---|---|---|
| Text.Split | redis/cluster.go:34-38 | `strings.Split` with one separator character gives at least one part, and no part holds the separator |
| Text.JoinSplit | redis/cluster.go:34-38 | joining the parts of a split with the separator gives back the text that was split |
| Text.SplitJoin | redis/cluster.go:34-38 | splitting a join of separator-free parts gives back those parts |
| Text.Trim | redis/cluster.go:31 | `strings.Trim` with cutset `"\n"` keeps a middle slice of the text; everything dropped is `\n`, and the kept text neither starts nor ends with `\n` |
| Text.TrimUntouched | redis/cluster.go:31 | a text that neither starts nor ends with the cutset is returned unchanged |
| Text.TrimOneTrailing | redis/cluster.go:31 | one trailing newline after such a text is all that Trim drops |
| Text.Contains | slice/slice.go:18 | `strings.Contains` holds exactly when the needle occurs at some offset |
| Text.ParseInt64 | redis/cluster.go:47-61 | a value is read exactly when the text is one or more decimal digits, optionally after one `+` or `-`, and the signed value fits in int64; the value is the digits' value, negated after `-`; a well-formed number outside the int64 range and any other text give no value |
| Text.FormatNat | redis/cluster.go:47 | the decimal spelling of a natural number is a non-empty digit string with that value; the program never formats integers, so this exists only as the inverse that ParseInt64 is proved against |
| Text.ParseFormat | redis/cluster.go:47 | `ParseInt` reads back every int64 that `FormatInt` writes; `FormatInt` is not in the program and serves only as ParseInt64's inverse partner |
| Slice.Find | slice/slice.go:6-13 | `(i, true)` at the first index whose element equals the value; `(-1, false)` exactly when no element equals it |
| Slice.Has | slice/slice.go:16-23 | `(i, true)` at the first index whose element contains the value; `(-1, false)` exactly when no element contains it |
| Slice.HasEmpty | slice/slice.go:16-22 | on a non-empty slice, `Has(s, "")` is `(0, true)` |
| Slice.FindThenHas | slice/slice.go:6-22 | every hit of Find is a hit of Has at the same or an earlier index |
| Slice.HasIsLooserThanFind | slice/slice.go:6-22 | Has can hit strictly earlier: in `["nomaster", "master"]`, Find of `"master"` gives 1 and Has gives 0 |
| Codes.Message | redis/Code.go:23-29 | the text of any code is one of the mapped texts and is never empty |
| Codes.MappedCodes | redis/Code.go:7-21 | exactly the five consecutive codes 1000 to 1004 have a text |
| Codes.MessagesOfDefinedCodes | redis/Code.go:15-21 | each defined code has its own mapped text |
| Codes.MessageDefault | redis/Code.go:23-28 | any other code reads as `"success"`, the text of CodeSuccess |
| Codes.MessagesDistinct | redis/Code.go:15-21 | different defined codes have different texts |
| Sentinel.Classify | redis/sentinel.go:43-91 | a failover is reported exactly for `+switch-master`, as a notice with the sentinel-error code and its text; any other channel gives a CodeSuccess notice with the sentinel event title |
| Sentinel.CatalogShape | redis/sentinel.go:13-39 | the catalog has 25 pairwise distinct channels, `+switch-master` among them |
| Sentinel.SwitchMasterRoundTrip | redis/sentinel.go:76-82 | a payload `name oldIP oldPort newIP newPort ...` yields exactly that master name and those endpoints; later tokens are ignored |
| Sentinel.OtherChannels | redis/sentinel.go:83-90 | every other channel, listed or not, gives content channel + `" "` + payload with CodeSuccess |
| ClusterParse.SplitAddress | redis/cluster.go:38-44 | the address is the text before the first `@`; the cluster port is the text after it when there is exactly one `@`, and empty otherwise |
| ClusterParse.ParseLineMeaning | redis/cluster.go:35-67 | a line is read exactly when its three numeric fields parse; the error names the first of them that does not; a node read holds the fields as `Decodes` describes (flags split at `,`, slots from field 8 on) |
| ClusterParse.ParseFormatLine | redis/cluster.go:35-67 | the line printed for any printable node is read back as that node |
| ClusterParse.ReportLines | redis/cluster.go:31-34 | a reply printed from nodes and ending in a newline splits, after trimming, into exactly one line per node, in order |
| ClusterParse.ParseFormatReport | redis/cluster.go:30-73 | reading the reply printed for printable nodes gives those nodes back, in order |
| ClusterParse.CollectMeaning | redis/cluster.go:47-70 | all or nothing: success exactly when every line is read, with the nodes in line order; otherwise the error of the first line that fails |
| ClusterParse.CollectAll | redis/cluster.go:34-70 | lines that are all read collect to their nodes |
| ClusterParse.CollectStep | redis/cluster.go:47-69 | one more line after a successful prefix either appends its node or fails with its error |
| ClusterParse.FailureSticks | redis/cluster.go:47-61 | once a prefix of the lines fails, the whole reply fails with that error |
| ClusterParse.GetNodes | redis/cluster.go:30-73 | the trimming, splitting, per-line loop with early return equals the specification `ParseReport` |
| ClusterBuild.ClusterInfoFormat | redis/cluster.go:93-167 | a parse error is passed on; otherwise the nodes, lists and maps are those `Accumulate` builds, and MasterSlaveMaps lists every temporary entry exactly once |
| ClusterBuild.Absorbed | redis/cluster.go:108-145 | the loop with its in-place updates and `continue`s computes `Accumulate` |
| ClusterBuild.MasterSlaveMaps | redis/cluster.go:148-157 | whatever order the keys are visited in, each entry is listed once, with empty SlaveAddr and SlaveID |
| ClusterBuild.AbsorbShape | redis/cluster.go:109-135 | a master is appended to Masters; a single-role slave to Slaves; a node with a role updates both maps; a node without a role changes nothing |
| ClusterBuild.DualRoleFirstSeen | redis/cluster.go:109-127 | a master-and-slave node whose id is new is listed as a master only |
| ClusterBuild.DualRoleSeenBefore | redis/cluster.go:121-144 | such a node whose id is already known is listed in both lists and overwrites its master's masterAddr |
| ClusterBuild.MastersListed | redis/cluster.go:109-110 | Masters lists, in input order, the address of every node with the exact flag `master` |
| ClusterBuild.SlavesListed | redis/cluster.go:132-133 | without dual-role nodes, Slaves lists, in input order, the address of every node flagged `slave` |
| ClusterBuild.IdKeys | redis/cluster.go:111-134 | IDToAddr has a key for the id of every node with a role, and no other |
| ClusterBuild.AddrKeys | redis/cluster.go:112-135 | AddrToID has a key for the address of every node with a role, and no other |
| ClusterBuild.IdLastWins | redis/cluster.go:111-134 | in IDToAddr the last node with a given id wins |
| ClusterBuild.AddrLastWins | redis/cluster.go:112-135 | in AddrToID the last node with a given address wins |
| ClusterBuild.LastIdExists | redis/cluster.go:111-134 | every id in use has a last node carrying it |
| ClusterBuild.LastAddrExists | redis/cluster.go:112-135 | every address in use has a last node carrying it |
| ClusterBuild.AddrOfIdInverse | redis/cluster.go:111-135 | with unique ids and addresses, AddrToID undoes IDToAddr |
| ClusterBuild.IdOfAddrInverse | redis/cluster.go:111-135 | with unique ids and addresses, IDToAddr undoes AddrToID |
| ClusterBuild.AbsorbTmp | redis/cluster.go:121-143 | a master writes its own entry with its address and slots; a slave writes its master's entry with its own address, keeping the slots |
| ClusterBuild.AbsorbSlots | redis/cluster.go:114-140 | only a master rewrites slot text, its own; an entry a slave creates starts with none; no entry is removed |
| ClusterBuild.TmpKeys | redis/cluster.go:121-143 | without dual-role nodes there is one entry per master id and per master id that a slave names, and no other |
| ClusterBuild.MasterAddrLastWins | redis/cluster.go:121-143 | without dual-role nodes, an entry's masterAddr is the address of the last node, master or slave, that wrote it |
| ClusterBuild.SlotsOfLastMaster | redis/cluster.go:114-129 | an entry's SlotStr is the slots of the last master with that id, joined by spaces |
| ClusterBuild.SlotsWithoutMaster | redis/cluster.go:137-140 | an entry that no master wrote has an empty SlotStr |
| ClusterFleet.FirstNonEmpty | redis/cluster.go:217-223 | the settled value is empty exactly when all answers are; otherwise it is the first non-empty answer |
| ClusterFleet.FirstNonEmptyAppend | redis/cluster.go:217-223 | one more answer changes the settled value only while it is still empty |
| ClusterFleet.ConsistentShape | redis/cluster.go:203-229 | a read runs to the end exactly when every node answers and, once a non-empty answer has come, every later answer repeats it |
| ClusterFleet.RunRepeats | redis/cluster.go:218-223 | in a read that runs to the end, every answer after a non-empty one repeats it |
| ClusterFleet.SettledIsLast | redis/cluster.go:217-228 | a read that runs to the end returns the last answer |
| ClusterFleet.UniformRead | redis/cluster.go:203-229 | when every node answers the same value, the read succeeds with it |
| ClusterFleet.EmptyThenValue | redis/cluster.go:218-223 | `["", "5"]` reads as `"5"`, while `["5", ""]` is an inconsistency at the second node |
| ClusterFleet.UniformFault | redis/cluster.go:203-229 | a read of a key that every answering node holds alike can only stop at a node that does not answer |
| ClusterFleet.WithConfigStep | redis/cluster.go:240-248 | writing at one more address updates exactly that node's key |
| ClusterFleet.WithConfigKeeps | redis/cluster.go:240-248 | writes leave every node as reachable and as writable as before |
| ClusterFleet.SetThenGet | redis/cluster.go:232-258 | after writing a value everywhere, a read is consistent and returns that value |
| ClusterFleet.SameRead | redis/cluster.go:203-229 | two fleets that give the same answers read alike |
| ClusterFleet.NoRefusal | redis/cluster.go:240-248 | when every node takes the write, no step of the write fails |
| ClusterFleet.Fleet.ConfigGet | redis/cluster.go:203-229 | succeeds exactly when the read is consistent, with the settled value; otherwise the error of the first fault |
| ClusterFleet.Fleet.ConfigCheck | redis/cluster.go:172-200 | true exactly when the read is consistent; otherwise the error of the first fault |
| ClusterFleet.Fleet.ConfigSet | redis/cluster.go:232-258 | logs exactly one call; nothing is written unless the read is consistent; it succeeds exactly when every node also takes the write, leaving every address at the value; otherwise it names the first refusing node and the addresses before it hold the value |
| ClusterFleet.Fleet.WriteEach | redis/cluster.go:240-257 | writes in order and stops at the first node that refuses, keeping the earlier writes and naming that node; it logs no further call |
| ClusterFleet.FrameOfProgress | redis/cluster.go:273-345 | any point of a flush run keeps reachability, writability, versions and all other settings, and flushes a prefix |
| ClusterFleet.FrameOfWrites | redis/cluster.go:298-340 | timeout writes keep reachability, writability, versions, all other settings and flush flags |
| ClusterFleet.KeptOfWrites | redis/cluster.go:298-340 | timeout writes change nothing but the timeout |
| ClusterFleet.FlushStep | redis/cluster.go:298-332 | one pass flushes its node exactly when the version and command call for it |
| ClusterFleet.RestoreStep | redis/cluster.go:334-340 | writing the timeout everywhere overrides any earlier timeout write |
| ClusterFleet.ProgressAnswers | redis/cluster.go:298-340 | during a run every timeout reads as the value last written, or as before if nothing was written yet |
| ClusterFleet.FrameOfFault | redis/cluster.go:273-340 | a run that a pass stops leaves the fleet inside `Frame`: reachability, capabilities, versions and other settings kept, and only a prefix flushed |
| ClusterFleet.RestoreOutcome | redis/cluster.go:334-339 | the write-back after a relaxed pass succeeds exactly when every node takes writes, restoring the original value; otherwise it names a node that refuses writes |
| ClusterFleet.HasV3First | redis/cluster.go:298-305 | some node is on version 3 exactly when a run meets a first version-3 node |
| ClusterFleet.AllPassed | redis/cluster.go:273-345 | a run in which no pass meets a fault has succeeded (`FlushSucceeds`) |
| ClusterFleet.RunCompletes | redis/cluster.go:273-345 | a run whose passes all complete has succeeded, and leaves `AfterFlush` inside `Frame` |
| ClusterFleet.FaultFails | redis/cluster.go:274-339 | a pass that stops the run means the run cannot succeed |
| ClusterFleet.RunCallsStep | redis/cluster.go:298-340 | each completed pass adds the relaxing call exactly when it is the first version-3 node, and a write-back of the original value when it is that node or a later one |
| ClusterFleet.RelaxingCount | redis/cluster.go:299-305 | unless the value first read is itself `1800`, the calls of the first k passes hold the relaxing call once when they reached a version-3 node and not at all otherwise |
| ClusterFleet.FailedTimeouts | redis/cluster.go:298-339 | after a run that pass k stops, the timeouts are untouched before the first version-3 node; at that node they are `1800` wherever the relaxing write got to, which is every node when only the flush was refused; after it they hold the original value |
| ClusterFleet.ProgressStart | redis/cluster.go:264-271 | before the first pass nothing has changed |
| ClusterFleet.RestoredTimeout | redis/cluster.go:334-340 | after a completed run every node whose timeout was set reads its original timeout |
| ClusterFleet.Fleet.FlushAll | redis/cluster.go:263-346 | a failed timeout read changes nothing, makes no ClusterConfigSet call and reports the first fault; otherwise the run succeeds exactly when `FlushSucceeds`, leaving `AfterFlush` after exactly the calls `RunCalls` lists; a failed run reports the error of the first failing pass (`FailsAt`, `RunFault`), leaves `FaultState` and has made the calls up to that pass, the relaxing one included when it is the first version-3 node; any run stays inside `Frame` |
| ClusterFleet.Fleet.Passes | redis/cluster.go:273-345 | the loop over `Masters ++ Slaves` after a consistent read: success exactly when `FlushSucceeds`, ending in `AfterFlush` with the calls `RunCalls` lists; on failure the error of the first failing pass, the fleet `FaultState` gives and the calls made up to that pass |
| ClusterFleet.Fleet.Step | redis/cluster.go:273-344 | one turn of the loop: its error is `RunFault` at that pass; on failure the run stops there, inside `Frame`, with `FaultState` and the calls made so far, and cannot succeed; otherwise the loop's facts hold one pass further |
| ClusterFleet.Fleet.Pass | redis/cluster.go:273-340 | the error is exactly `PassFault`: an unreachable node, an unparsable version, the relaxing write refused (named by the first refusing node), or a refused flush, before or after relaxing; the relaxing call is made at the first version-3 node and the write-back once relaxed; a failed pass leaves `FaultState`, a completed one one more node done |
| ClusterFleet.Fleet.FlushNode | redis/cluster.go:308-332 | version 3 gets FLUSHALL or its renamed form and 4 and later FLUSHALL ASYNC only for FLUSHALL; a refused flush reports `FlushRejected` and changes nothing; otherwise the node is marked flushed exactly when it gets a flush |
| ClusterFleet.Fleet.Relax | redis/cluster.go:298-305 | the relaxing ClusterConfigSet call fails exactly when some node refuses writes; it then reports the first such node and leaves `1800` at the nodes before it; otherwise every timeout in the list is `1800` |
| ClusterFleet.Fleet.Restore | redis/cluster.go:334-340 | the write-back of the original value succeeds exactly when every node takes writes, putting that value back everywhere; otherwise it reports a node that refuses and leaves a prefix of the list written |

## Left out

- Connections, passwords, `context` timeouts, `Close`/`cancel`: a node's `reachable` flag stands for connecting and reading (CONFIG GET, INFO), its `writable` flag for CONFIG SET, and its `flushable` flag for the flush command. The code does not close connections on error paths, and the model claims no release guarantee.
- `InfoMap` is not part of this model: each node's `redis_version` string is an input, and an absent version is the empty string, which fails to parse.
- Error texts: errors are tagged variants (`ParseError`, `FleetError`). This includes the message that prints `fields[4]` for pong-recv and config-epoch.
- Go map iteration order: `MasterSlaveMaps` is specified as a set of entries (each once), not as a list order.
- The sentinel subscription loop, the notice time stamp, and the printing and sending of notices: `Classify` returns the notice. A `+switch-master` payload with fewer than five tokens indexes out of range in the code and is excluded by a precondition.
- A CONFIG GET on a missing key indexes out of range in the code, so the key is required on every reachable node (`ConfigDefined`).
- A reply line with fewer than 8 fields indexes out of range in the code, so every line must have at least 8 (`WellShaped`).
- `Slots` is nil for an 8-field line and `fields[8:]`, which then holds at least one field, otherwise. The model has no nil: the 8-field case is the empty sequence. Its one use, the `node.Slots != nil` test at redis/cluster.go:115, is modelled as a non-empty test, which agrees on every reply.
- That Find and Has leave the slice unchanged: they take it by value and are pure functions here.
- The monitor, standalone, connection, sample, main, message and model files: concurrency, timers, network probes and records with no behaviour.
- ClusterBuild.SlavesListed, ClusterBuild.TmpKeys and ClusterBuild.MasterAddrLastWins: stated for nodes that carry at most one role; a dual-role node follows `DualRoleFirstSeen`/`DualRoleSeenBefore` instead.
- ClusterFleet.Fleet.Restore: a node's capabilities are fixed for the whole run, so once the relaxing write has succeeded every node takes writes, and the failed write-back at redis/cluster.go:336-339 cannot happen within a run. Restore still models that branch on its own, but no run reaches it.
- ClusterFleet.Fleet.Pass: for the same reason, after a consistent first read every node answers, so the connection and INFO failures at redis/cluster.go:275-289 cannot stop a run, although Pass reports them. Pass also takes as given what an earlier successful relaxing write shows: once relaxed, every node takes writes.
- ClusterFleet.RestoredTimeout: stated for nodes whose timeout was non-empty; where some answer was empty, the restored value is the settled one.
- The loops of ClusterConfigSet and ClusterFLUSHALL are written as the helper methods `WriteEach`, `Passes`, `Step`, `Pass`, `FlushNode`, `Relax` and `Restore`; their steps and their order are the source's.
