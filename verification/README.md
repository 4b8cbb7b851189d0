# A verified model of libdm

libdm is LVM2's userspace side of the Linux device mapper. This project models the
parts of it whose correctness does not depend on the kernel's internals, and proves
what they promise. The kernel appears as a small state (which devices exist, which
are suspended, what a thin pool holds) whose calls may fail at any time.

`dafny verify dfyconfig.toml` checks the whole project.

| file | what it models |
|---|---|
| `DepTree.dfy` | the dependency tree: `uses`/`used_by` links, the root, `_add_dev` |
| `TreeSuspend.dfy` | `dm_tree_suspend_children`: parents first |
| `TreeActivate.dfy` | `dm_tree_activate_children`: children first, priority levels, renames; both passes together |
| `RenameLoop.dfy` | when the rename retry loop of one level ends |
| `TreeNames.dfy` | the names in the tree, and that a level's renames are that loop |
| `ThinPool.dfy` | thin-pool messages and the transaction id |
| `BitCount.dfy`, `SegmentCounts.dfy` | `hweight32`, the arguments of RAID and mirror targets and their number |
| `KernelWords.dfy`, `TargetLines.dfy` | texts as the kernel takes them apart, and that RAID and mirror lines are read as meant |
| `TableLoad.dfy` | table parameters in a growing buffer, contiguous targets, the metadata clamp |
| `NodeOps.dfy` | the queue of `/dev` node operations and how it coalesces |
| `UdevCookie.dfy` | the semaphore between a command and udev, and the cookie in the event number |
| `Mangle.dfy` | hex mangling of names |
| `Quoting.dfy`, `DmName.dfy` | quoting, in-place unquoting, `vg-lv-layer` names |
| `ConfigTokens.dfy`, `ConfigParser.dfy` | tokeniser and parser of the configuration language |
| `ConfigTree.dfy`, `ConfigOrder.dfy` | configuration nodes, paths, order of siblings, reversal |
| `ConfigSyntax.dfy`, `ConfigValues.dfy` | every way to write a configuration down, and the values it gives |
| `ConfigPrinter.dfy`, `ConfigRoundTrip.dfy` | the printer, and that parsing undoes printing |
| `ConfigFlatten.dfy` | cascaded lookup and `dm_config_flatten` |
| `Selection.dfy`, `SelectionExact.dfy` | the parser and the evaluation of report selections, and exactly which ones are evaluated rightly |
| `StringList.dfy` | string-list fields: the sorted index and the list matchers |
| `Decimal.dfy`, `Wrappers.dfy` | numerals and optional results |

Code that changes things step by step is modelled by classes and methods with loops,
each proved against a function of its inputs or of the old state. The theorems are
about those functions and about whole runs.

Some promises hold only under a condition. Where that is so, the exact condition is
proved, in both directions:

* the rename loop ends if and only if there is no set of siblings that wait only for
  themselves or for siblings the level does not handle while no other rename is
  refused (`RenameLoop.EndsUnlessStuck`), and every rename is done if and only if
  nobody is stuck and no wanted name is kept, wanted twice or held elsewhere
  (`RenameLoop.SucceedsExactly`); two siblings that swap names wait for ever. The
  activate pass is safe either way (`TreeActivate.ActivatePass.ActivateChildren`);
* a list of pool messages survives any interruption if and only if the id of each
  snapshot in it was created or deleted earlier in the list, and its origin too unless
  the list never deletes that (`ThinPool.RetryIff`); a single snapshot does not;
* the kernel reads a RAID line as it is meant, and its argument count is right, if and
  only if no mask bit lies outside the device pairs; a mirror line, if and only if only
  the four mirror flags are set and not both sync flags (`TargetLines.RaidRead`,
  `TargetLines.MirrorLineRead`);
* a read-ahead that is set reaches the kernel if and only if its node is neither
  deleted nor renamed before the queue is flushed (`NodeOps.SettingsSurvive`);
* auto mode takes a name if and only if there is no `\x` in it or it is well mangled
  throughout (`Mangle.AutoExactly`);
* a wait for udev fails if and only if its own decrement, the waiting or the destroying
  of the semaphore failed (`UdevCookie.FailsExactly`);
* a rename queued behind additions, deletions and read-ahead settings equals renaming
  at once if and only if those leave the old name as they found it
  (`NodeOps.RenameReplaysIff`); a queued addition of the old name is lost. Behind any
  queue, it is so if and only if the operations that are kept leave the same as all of
  them under every name but the new one (`NodeOps.RenameReplaysExactly`);
* a hexadecimal number is read as its value and then as the name of the next entry, so
  the file is refused unless `=` or `{` stands behind it (`ConfigSyntax.HexRefused`);
* a selection in which no comparison occurs twice is evaluated rightly on every row if
  and only if every chain of directly nested negations has length zero or odd
  (`SelectionExact.RightIffPlain`); `!(!(a))` is wrong on every row, `!(!(!(a)))` right;
* a built name splits into its parts if and only if the LV is not empty, neither LV
  nor layer starts with a hyphen, and the layer does not start with an underscore
  (`DmName.SplitUndoesBuild`);
* the flattened configuration answers a path like the cascade unless what the cascade
  finds there is a section whose value, or lack of one, differs from the first leaf: a
  section with a value of its own, or a bare section that hides a later leaf, and then
  it does not (`ConfigFlatten.FlattenAgrees`);
* without other failures, and with every device known, a table is loaded if and only
  if every linear, striped, crypt and snapshot text is shorter than 262144 characters,
  none of the first three is empty, and every mirror and RAID device list fits the first
  buffer of 4096 with the words before it, unless these alone fill it
  (`TableLoad.Task.LoadSegments`); a RAID list of 500 devices is refused where a longer
  linear one is not.

## Model

| member | source | states |
|---|---|---|
| `DepTree.DmTree.constructor` | lvm2/libdm/libdm-deptree.c:311-347 | a new tree holds the root alone and meets every link rule |
| `DepTree.DmTree.NodesAreLinked` | lvm2/libdm/libdm-deptree.c:387-397 | answers whether the child is among the nodes the parent uses |
| `DepTree.DmTree.LinkNodes` | lvm2/libdm/libdm-deptree.c:414-427 | links the pair on both sides, once |
| `DepTree.LinkEffect` | lvm2/libdm/libdm-deptree.c:414-427 | linking adds exactly the one pair, and `uses` and `used_by` stay exact converses without duplicates |
| `DepTree.DmTree.Unlink` | lvm2/libdm/libdm-deptree.c:429-438 | removes the first entry for the node |
| `DepTree.DmTree.UnlinkNodes` | lvm2/libdm/libdm-deptree.c:440-448 | unlinks the pair on both sides |
| `DepTree.UnlinkEffect` | lvm2/libdm/libdm-deptree.c:440-448 | unlinking removes exactly the one pair and keeps the lists converses |
| `DepTree.DmTree.LinkTreeNodes` | lvm2/libdm/libdm-deptree.c:470-486 | the new links are those of the specification `LinkTree` |
| `DepTree.LinkTreeDevices` | lvm2/libdm/libdm-deptree.c:470-486 | between two devices: the pair is linked, the root is cut from the child's parents and the parent's children, every other link stays |
| `DepTree.LinkTreeFromRoot` | lvm2/libdm/libdm-deptree.c:470-486 | from the root: the root becomes a parent exactly of a device that has no other |
| `DepTree.AttachKeepsRules` | lvm2/libdm/libdevmapper.h:523-533 | attaching a node keeps the rule that the root is a parent (child) exactly when there is no other |
| `DepTree.MadeKeepsRules` | lvm2/libdm/libdm-deptree.c:1205-1270 | a new node breaks the parent rule only for itself |
| `DepTree.BottomKeepsRules` | lvm2/libdm/libdm-deptree.c:1205-1270 | a device without dependencies gets the root as only child, and the rules hold |
| `DepTree.DmTree.Deps` | lvm2/libdm/libdm-deptree.c:791-876 | a successful query gives the device's dependencies, none for a device that is not mapped |
| `DepTree.DmTree.AddDev` | lvm2/libdm/libdm-deptree.c:1205-1270 | whatever fails, the links stay mirrored and only devices reachable through dependencies appear; on success every new device has exactly its dependencies as children; it ends even on cyclic dependencies |
| `DepTree.DmTree.AddDeps` | lvm2/libdm/libdm-deptree.c:1253-1263 | the dependency loop completes the device it runs for |
| `DepTree.DmTree.AddDevToTree` | lvm2/libdm/libdm-deptree.c:1272-1275 | into a dependency-closed tree, a successful call adds exactly the reachable devices, closes the tree again and leaves the lists of all other devices alone |
| `TreeShape.Shape.AllBelowRoot` | lvm2/libdm/libdm-deptree.c:1712-1786 | a walk from the root meets every matching device |
| `TreeShape.Shape.BelowIsReachable` | lvm2/libdm/libdm-deptree.c:1712-1786 | what the passes take to lie below a node is what can be reached from it over matching nodes |
| `TreeSuspend.SuspendPass.ParentsSuspended` | lvm2/libdm/libdm-deptree.c:698-740 | true exactly when every matching, non-presuspending parent is suspended |
| `TreeSuspend.SuspendPass.InfoByDev` | lvm2/libdm/libdm-deptree.c:881-924 | a successful query tells whether the device exists and is suspended |
| `TreeSuspend.SuspendPass.SuspendNode` | lvm2/libdm/libdm-deptree.c:1369-1408 | one more suspend is logged, the counter moves with the kernel's set, and no device is suspended before its parents |
| `TreeSuspend.SuspendPass.SuspendLevel` | lvm2/libdm/libdm-deptree.c:1724-1765 | the children of one node are tried; parents-first holds under any failures, the result is false exactly when a suspend was reported as failed, and without failures every child that may be suspended is |
| `TreeSuspend.SuspendPass.SuspendChildren` | lvm2/libdm/libdm-deptree.c:1712-1786 | the recursive pass keeps parents-first over the whole log under any failures and fails exactly when a suspend was reported as failed; without failures it leaves nothing below the node that could still be suspended |
| `TreeSuspend.ParentsFirstAt` | lvm2/libdm/libdm-deptree.c:1745-1747 | at every position of the log, all matching, non-presuspending parents of the device were suspended before |
| `TreeSuspend.SaturatedMeansAll` | lvm2/libdm/libdm-deptree.c:1712-1786 | once nothing is left to look at, every matching device is suspended (by the highest device that would not be) |
| `TreeSuspend.SuspendPass.SuspendTree` | lvm2/libdm/libdm-deptree.c:1712-1786 | a pass from the root over accurate info, without failures, suspends each device that was not suspended exactly once, and the counter grows by as many |
| `TreeActivate.ActivatePass.RenameConflictExists` | lvm2/libdm/libdm-deptree.c:1801-1832 | reports a resolvable conflict exactly when a sibling that is to be renamed holds the wanted name |
| `TreeActivate.ActivatePass.RenameNode` | lvm2/libdm/libdm-deptree.c:1283-1316 | a rename that works takes the node out of the pending ones; none is issued onto a name that a pending sibling holds; the kernel refuses any name in use, the node's own included, and without failures no other |
| `TreeActivate.ActivatePass.ResumeNode` | lvm2/libdm/libdm-deptree.c:1319-1367 | called only when nothing below is suspended or has an inactive table and the node has its name; swaps in the table and takes the counter down |
| `TreeActivate.ActivatePass.ActivateChild` | lvm2/libdm/libdm-deptree.c:1867-1916 | one child on a level: renamed, left waiting for a sibling, or resumed |
| `TreeActivate.ActivatePass.VisitChild` | lvm2/libdm/libdm-deptree.c:1867-1916 | one child in a round: what it does to the names is one visit of `RenameLoop`, and without other failures the pass is given up exactly on a refused one |
| `TreeActivate.ActivatePass.ActivateLevel` | lvm2/libdm/libdm-deptree.c:1864-1920 | one round over the children is a `RenameLoop.Round` of their names, unless a failed rename ends the pass; when waiting follows an order on the level, a round that leaves somebody waiting has completed a rename |
| `TreeActivate.ActivatePass.RedoLevel` | lvm2/libdm/libdm-deptree.c:1864-1920 | a level that is redone until nobody waits: without other failures it ends well exactly when `RenameLoop` succeeds, it is given up only when that never ends, and its children are then settled: named, and resumed unless that failed |
| `TreeActivate.ActivatePass.ActivateLevels` | lvm2/libdm/libdm-deptree.c:1864-1920 | the priority loop: the priorities of the children dealt with never fall; whatever names are wanted, on success no matching child is due; it ends whenever waiting follows an order on each level |
| `TreeActivate.ActivatePass.SendMessages` | lvm2/libdm/libdm-deptree.c:1929-1931 | messages are sent only when nothing below the node is due any more |
| `TreeActivate.LevelLogPasses` | lvm2/libdm/libdm-deptree.c:1864-1920 | on a level nothing above a child whose resume failed is resumed, and a failed rename is the last event |
| `TreeActivate.ActivatePass.ActivateChildren` | lvm2/libdm/libdm-deptree.c:1834-1934 | for any names wanted and under any failures every resume was safe and in its turn: no sibling of lower priority was still due, unless its own resume had failed, and none still had a rename to come; success means that nothing below is due, that the node's messages were sent and, for a pass that ends, exactly that nothing failed; after a failed rename or failed messages nothing at all happens, after a failed resume no ancestor is resumed and no messages are sent; a pass in which waiting follows an order on each level ends |
| `TreeActivate.FailureStopsAncestors` | lvm2/libdm/libdm-deptree.c:1847-1920 | over any number of passes: after a resume whose ioctl failed, no ancestor is resumed and none of its messages are sent until a later resume of the device runs |
| `TreeActivate.LowerFirst` | lvm2/libdm/libdm-deptree.c:265 | without failures, of two children of a node the one with the lower priority is resumed first |
| `TreeNames.WaitsIsBlocked` | lvm2/libdm/libdm-deptree.c:1801-1832 | a child of the tree waits exactly when it waits in `RenameLoop` |
| `TreeNames.StepIsVisit` | lvm2/libdm/libdm-deptree.c:1867-1916 | what handling one child does to the names in the tree is one visit of `RenameLoop`, not a refused one |
| `TreeNames.RefusalIsRefused` | lvm2/libdm/libdm-deptree.c:1283-1316 | a child whose name stays in use is refused in `RenameLoop` too |
| `TreeNames.GroundedEnds` | lvm2/libdm/libdm-deptree.c:1864-1920 | when waiting is acyclic and stays on the level, the level ends |
| `TreeNames.GroundedMoves` | lvm2/libdm/libdm-deptree.c:1864-1920 | then somebody on the level can always be renamed while somebody waits |
| `TreeActivate.ActivatePass.ActivateTree` | lvm2/libdm/libdm-deptree.c:1834-1934 | a pass from the root without failures and renames resumes every due device exactly once, lower priorities first, whatever messages it sends, and takes the counter down by the suspended ones |
| `TreeCycle.SuspendThenActivate` | lvm2/libdm/libdm-common.c:216-231 | a suspend pass and then an activate pass treat every device exactly once each, in safe order and lower priorities first, and the suspended counter is back where it was |
| `RenameLoop.WaitsMeans` | lvm2/libdm/libdm-deptree.c:1801-1832 | a child is made to wait exactly when another pending child holds the name it wants |
| `RenameLoop.RoundProgress` | lvm2/libdm/libdm-deptree.c:1864-1920 | a round that leaves somebody waiting has shrunk the set of pending renames |
| `RenameLoop.StuckNeverEnds` | lvm2/libdm/libdm-deptree.c:1864-1920 | a set of children that waits only for itself, or for children of other levels, keeps every later round waiting as long as no other rename is refused |
| `RenameLoop.EndsUnlessStuck` | lvm2/libdm/libdm-deptree.c:1864-1920 | for devices with different names, whatever names other devices hold, the loop ends, well or by a refused rename, exactly when there is no such set |
| `RenameLoop.RoundsIdle` | lvm2/libdm/libdm-deptree.c:1864-1920 | once a round leaves somebody waiting and renames nobody, the loop never ends |
| `RenameLoop.SucceedsExactly` | lvm2/libdm/libdm-deptree.c:1864-1920 | every rename of the level is done exactly when nobody is stuck and no wanted name is kept by its holder, wanted twice, held outside or the child's own |
| `RenameLoop.OrderedEnds` | lvm2/libdm/libdm-deptree.c:1864-1920 | it ends when waiting follows an order inside the level |
| `RenameLoop.SwapNeverEnds` | lvm2/libdm/libdm-deptree.c:1864-1920 | two children that swap names: the loop never ends |
| `ThinPool.MessageFor` | lvm2/libdm/libdm-deptree.c:3808-3870 | an accepted id message leads from the previous id to the pool's; device ids are at most 24 bits |
| `ThinPool.RequestEffect` | lvm2/libdm/libdm-deptree.c:3808-3870 | which requests are taken, exactly; and what each does to any pool: a creation adds its id, a deletion removes it, a snapshot adds the first id and is accepted exactly when that is new and the second one there, an id change is accepted exactly from its first id |
| `ThinPool.SelfSnapshot` | lvm2/libdm/libdm-deptree.c:3821-3831 | ids that differ only above 32 bits are taken as a snapshot that no pool accepts |
| `ThinPool.MessageRead` | lvm2/libdm/libdm-deptree.c:1455-1495 | the kernel takes the text of every message for that message |
| `ThinPool.MessageFits` | lvm2/libdm/libdm-deptree.c:1455-1495 | which always fits its buffer of 64 characters |
| `ThinPool.PoolNode.constructor` | lvm2/libdm/libdm-deptree.c:3797-3803 | messages are to be sent from the start exactly for a non-zero transaction id |
| `ThinPool.PoolNode.AddMessage` | lvm2/libdm/libdm-deptree.c:3808-3870 | an acceptable request appends its message, any other changes nothing |
| `ThinPool.PoolDevice.Message` | lvm2/libdm/libdm-deptree.c:1455-1522 | the pool changes only by an accepted message; the errno a message expects counts as success |
| `ThinPool.PoolDevice.Status` | lvm2/libdm/libdm-deptree.c:1410-1453 | a successful query gives the pool's transaction id |
| `ThinPool.PoolNode.SendMessages` | lvm2/libdm/libdm-deptree.c:1525-1592 | every run is a `RunStep`: a prefix of the list, all of it on success; when the id is already reached no message is sent; without failures it works exactly when the id is reached, or due and every message accepted, and then the whole list was sent |
| `ThinPool.SameMessages` | lvm2/libdm/libdm-deptree.c:1525-1592 | pools that took the same messages agree on every device these mention |
| `ThinPool.AcceptedAgain` | lvm2/libdm/libdm-deptree.c:1525-1592 | from every state that interrupted runs can leave, the whole list is accepted again |
| `ThinPool.RetryIff` | lvm2/libdm/libdm-deptree.c:1525-1592 | a list can be sent again after any interruption exactly when it is `RetrySafe` |
| `ThinPool.CrashSafe` | lvm2/libdm/libdm-deptree.c:1525-1592 | over any number of runs, cut anywhere or failing at the status query, the id only moves from T-1 to T, afterwards the devices are as after one complete run, and runs that find T change nothing |
| `ThinPool.UncutRunSucceeds` | lvm2/libdm/libdm-deptree.c:1525-1592 | an uninterrupted run succeeds from every such state |
| `ThinPool.PlainIsSafe` | lvm2/libdm/libdm-deptree.c:3808-3870 | lists of thin creations and deletions always qualify |
| `ThinPool.SnapshotBlocks` | lvm2/libdm/libdm-deptree.c:3808-3870 | a single snapshot cannot be sent twice |
| `BitCount.HweightCounts` | lvm2/libdm/libdevmapper.h:1160-1168 | the bit-parallel sum is the number of set bits, for every 32-bit word |
| `SegmentCounts.HalvesCount` | lvm2/libdm/libdm-deptree.c:2315-2321 | the two halves of a 64-bit mask account for all its bits |
| `SegmentCounts.RaidParams` | lvm2/libdm/libdm-deptree.c:2297-2354 | the announced count is never less than the words written, and equal to them exactly when no mask bit lies outside the device pairs |
| `SegmentCounts.RaidCountExact` | lvm2/libdm/libdm-deptree.c:2297-2357 | the same of the specification functions |
| `SegmentCounts.RebuildOfNoPair` | lvm2/libdm/libdm-deptree.c:2315-2317 | a rebuild bit for a third of two pairs makes the count wrong |
| `SegmentCounts.MirrorLogParams` | lvm2/libdm/libdm-deptree.c:2177-2278 | the log type, and a count that equals the words exactly when only the four mirror flags are set and not both sync flags; fails exactly when the kernel version cannot be had, a clustered log has no uuid, or the log device no number |
| `SegmentCounts.MirrorCountExact` | lvm2/libdm/libdm-deptree.c:2225-2278 | the same of the specification functions |
| `SegmentCounts.BothSyncFlags` | lvm2/libdm/libdm-deptree.c:2272-2275 | NOSYNC together with FORCESYNC makes the count wrong |
| `SegmentCounts.FlagCount` | lvm2/libdm/libdm-deptree.c:2225-2278 | bits beyond the four known flags are counted but never written |
| `SegmentCounts.VersionOrder` | lvm2/libdm/libdm-deptree.c:2202 | the packed kernel version compares as its three numbers, as long as the last two are bytes |
| `SegmentCounts.ReleaseDecides` | lvm2/libdm/libdm-deptree.c:2184-2189 | which releases are usable, and that they compare by their numbers |
| `SegmentCounts.VersionOverflows` | lvm2/libdm/libdm-deptree.c:2221 | 2.5.287 passes for 2.6.31 |
| `TargetLines.RaidOptionsRead` | lvm2/libdm/libdm-deptree.c:2327-2354 | read as names and values, the options are the segment's: the rebuild and write-mostly devices are the bits of their masks below the device pairs, each value is its field |
| `TargetLines.RaidRead` | lvm2/libdm/libdm-deptree.c:2297-2361 | the kernel reads the whole line as it is meant exactly when no mask bit lies outside the device pairs |
| `TargetLines.RaidText` | lvm2/libdm/libdm-deptree.c:2327-2361 | the text of a RAID target has the words of that line |
| `TargetLines.MirrorRead` | lvm2/libdm/libdm-deptree.c:2239-2278 | log type and log arguments, read by position, give back the uuid, the log device, the region size and the flags, for every kernel version |
| `TargetLines.MirrorLineRead` | lvm2/libdm/libdm-deptree.c:2166-2289 | the kernel reads the whole line as it is meant exactly when only the four mirror flags are set and not both sync flags |
| `TargetLines.MirrorText` | lvm2/libdm/libdm-deptree.c:2239-2289 | the text of a mirror target with legs has the words of that line |
| `TableLoad.Params.Emit` | lvm2/libdm/libdm-deptree.c:2030-2039 | the buffer then holds what fits of the text so far and the piece, and a piece that does not fit is reported |
| `TableLoad.Params.EmitAreas` | lvm2/libdm/libdm-deptree.c:2046-2125 | out of space exactly when the areas' text, in the RAID form or with offsets, does not fit; success only with every device number known |
| `TableLoad.LinearWords` | lvm2/libdm/libdm-deptree.c:2113-2122 | the text of a linear target reads as each area's device and offset, in order |
| `TableLoad.StripedWords` | lvm2/libdm/libdm-deptree.c:2543-2545 | a striped target as the number of stripes, the stripe size and the same list |
| `TableLoad.Task.EmitSegmentLine` | lvm2/libdm/libdm-deptree.c:2493-2630 | without allocation failures the result is exactly `Outcome`: one target with what the buffer holds of the text, none when out of space is seen or a device is unknown |
| `TableLoad.Task.WriteAround` | lvm2/libdm/libdm-deptree.c:2280-2288 | mirror and RAID: an area list that does not fit fails, a head or tail that does not fit is cut and goes unnoticed |
| `TableLoad.Task.EmitSegment` | lvm2/libdm/libdm-deptree.c:2634-2666 | however often the buffer is doubled, exactly one target or none; without other failures it succeeds exactly when the text fits the largest size tried, or, for the types that are never retried, when nothing that must fit 4096 characters is longer |
| `TableLoad.LongListRefused` | lvm2/libdm/libdm-deptree.c:2358-2359 | a RAID list of 500 devices is refused, a linear target with as many areas is not |
| `TableLoad.Task.LoadSegments` | lvm2/libdm/libdm-deptree.c:2697-2700 | one target for each segment, starting at the sum of the sizes before it; without other failures exactly when every segment can be emitted |
| `TableLoad.TargetsContiguous` | lvm2/libdm/libdm-common.c:832-847 | the first target starts at zero and each next one where the one before ends |
| `TableLoad.ClampMetadata` | lvm2/libdm/libdm-deptree.c:3774-3783 | the total becomes the smaller of the total and the maximum; sizes are kept from the front |
| `NodeOps.NodeOpQueue.DelNodeOp` | lvm2/libdm/libdm-common.c:1365-1371 | removes one operation, and the counters still count the queue |
| `NodeOps.NodeOpQueue.OtherNodeOps` | lvm2/libdm/libdm-common.c:1374-1382 | true exactly when an operation of another type is queued |
| `NodeOps.NodeOpQueue.StackNodeOp` | lvm2/libdm/libdm-common.c:1410-1504 | queues with coalescing; the counters equal the queue, and flushing still equals having done every operation at once |
| `NodeOps.NodeOpQueue.UnstackForDel` | lvm2/libdm/libdm-common.c:1424-1436 | the scan before a deletion, with its counter-guarded early exit |
| `NodeOps.NodeOpQueue.UnstackForAdd` | lvm2/libdm/libdm-common.c:1437-1450 | the scan before an addition |
| `NodeOps.NodeOpQueue.UnstackForRename` | lvm2/libdm/libdm-common.c:1451-1466 | the scan before a rename |
| `NodeOps.NodeOpQueue.PopNodeOps` | lvm2/libdm/libdm-common.c:1506-1523 | empties the queue; the node map is then what immediate execution would have left, and the read-ahead is set by the queued settings in order |
| `NodeOps.ReplayIsFinal` | lvm2/libdm/libdm-common.c:1506-1523 | replaying a queue leaves at each name what the last operation on it decides |
| `NodeOps.StackedReplays` | lvm2/libdm/libdm-common.c:1410-1504 | flushing the coalesced queue equals replaying the queue and then the operation |
| `NodeOps.RunReplays` | lvm2/libdm/libdm-common.c:1410-1523 | the same for every run of additions, deletions and read-ahead settings |
| `NodeOps.SettingsSurvive` | lvm2/libdm/libdm-common.c:1410-1504 | over any run of operations the queued read-ahead settings are those whose node is neither deleted nor renamed later, in order |
| `NodeOps.NoneLost` | lvm2/libdm/libdm-common.c:1424-1466 | so none is lost exactly when there is no such node |
| `NodeOps.DeletionLosesSetting` | lvm2/libdm/libdm-common.c:1424-1436 | a setting is lost with its node, although it is the device's |
| `NodeOps.RenameReplaysExactly` | lvm2/libdm/libdm-common.c:1451-1466 | for a rename onto any queue: flushing equals immediate execution exactly when the kept operations leave the same as all of them under every name but the new one |
| `NodeOps.RenameReplaysIff` | lvm2/libdm/libdm-common.c:1451-1466 | for a queue of additions, deletions and read-ahead settings: exactly when the dropped operations would leave the old name as found |
| `NodeOps.RenameLosesAddition` | lvm2/libdm/libdm-common.c:1451-1466 | a queued addition of the old name is lost by the rename |
| `NodeOps.DelUnstacksNode` | lvm2/libdm/libdm-common.c:1424-1436 | the early exit of the deletion scan loses nothing |
| `UdevCookie.NextKeepsInv` | lvm2/libdm/libdm-common.c:2140-2341 | every step keeps: semaphore = assigned - completed + leaked, plus one until the wait's own decrement |
| `UdevCookie.RunKeepsInv` | lvm2/libdm/libdm-common.c:2400-2522 | so at every moment of every interleaving |
| `UdevCookie.StepsDecide` | lvm2/libdm/libdm-common.c:2400-2522 | at every moment of every interleaving the steps taken decide which tasks are given and completed, what leaked, whether the semaphore is there, and how far the owner is |
| `UdevCookie.NothingMeetsZero` | lvm2/libdm/libdm-common.c:2201-2234 | a completion that finds the semaphore finds it above zero and is counted, and so is the wait's decrement |
| `UdevCookie.WaitMeansCompleted` | lvm2/libdm/libdm-common.c:2475-2513 | a wait succeeds only after every assigned task completed, unless another process removed the semaphore |
| `UdevCookie.FailsExactly` | lvm2/libdm/libdm-common.c:2475-2513 | a wait that is over failed exactly when its own decrement, the waiting or the destroying failed |
| `UdevCookie.WaitIffCompleted` | lvm2/libdm/libdm-common.c:2475-2513 | a waiting owner can go on exactly when all assigned tasks completed and no increment leaked, and then succeeds and takes the semaphore away |
| `UdevCookie.WaitCanSucceed` | lvm2/libdm/libdm-common.c:2475-2513 | from every waiting state with nothing leaked, completing what is outstanding makes the wait succeed |
| `UdevCookie.AnyOrderSucceeds` | lvm2/libdm/libdm-common.c:2400-2522 | whatever order udev completes the tasks in, before the wait or during it, the wait succeeds |
| `UdevCookie.CookieRoundTrip` | lvm2/libdm/libdm-common.c:2400-2453 | flags and cookie are recovered exactly from the packed event number |
| `UdevCookie.PrefixAccepted` | lvm2/tools/dmsetup.c:970-990 | any event number with a non-zero base yields a cookie with the expected prefix, any other completes nothing |
| `Mangle.MangleString` | lvm2/libdm/libdm-common.c:360-442 | the buffer holds the mangled form and its NUL, or -1 on a mixture or when it does not fit |
| `Mangle.MangleNext` | lvm2/libdm/libdm-common.c:381-423 | one round of that loop |
| `Mangle.UnmangleString` | lvm2/libdm/libdm-common.c:448-497 | the buffer holds the unmangled text, or is empty with -1 for a blacklisted character in a strict mode |
| `Mangle.HexMangles` | lvm2/libdm/libdm-common.c:360-442 | hex mode accepts every string, works character by character and reports whether it changed anything |
| `Mangle.MangledByte` | lvm2/libdm/libdm-common.c:329-342 | each byte on its own: those of udev's set stay, any other becomes `\x` and its two hexadecimal digits |
| `Mangle.HexMangledJoin` | lvm2/libdm/libdm-common.c:360-442 | and a string is mangled byte by byte |
| `Mangle.UnmangleUndoesHex` | lvm2/libdm/libdm-common.c:448-497 | unmangling a hex-mangled string gives the string back, in every mode |
| `Mangle.UnmangleKeepsPlain` | lvm2/libdm/libdm-common.c:448-497 | a string without `\x` is left alone, or refused in the strict modes exactly for a character that should have been mangled |
| `Mangle.AutoKeepsHexMangled` | lvm2/libdm/libdm-common.c:381-423 | auto mode leaves every hex-mangled string unchanged |
| `Mangle.AutoIsAllOrNothing` | lvm2/libdm/libdm-common.c:360-442 | whatever auto mode accepts, it returns unchanged or hex-mangled as a whole |
| `Mangle.AutoExactly` | lvm2/libdm/libdm-common.c:360-442 | auto mode takes exactly the strings without `\x`, which it mangles, and the well mangled ones, which it keeps |
| `Mangle.RefusedIffOriginalEscaped` | lvm2/libdm/libdm-common.c:344-354 | the double-mangling check refuses a hex-mangled string exactly when the original contained `\x` |
| `Quoting.CountChars` | lvm2/libdm/libdm-string.c:194-202 | adds the length and the number of occurrences of two characters to the counters |
| `Quoting.QuotedLength` | lvm2/libdm/libdm-string.c:225-250 | quoting adds one character for each character it quotes |
| `Quoting.EscapedLen` | lvm2/libdm/libdm-string.c:225-233 | exactly the room that the escaped string and its NUL take |
| `Quoting.QuoteCharacters` | lvm2/libdm/libdm-string.c:239-250 | writes the quoted string at the output cursor and nothing else |
| `Quoting.EscapeDoubleQuotes` | lvm2/libdm/libdm-string.c:389-397 | the buffer then holds the escaped string |
| `Quoting.UnquoteOneCharacter` | lvm2/libdm/libdm-string.c:252-279 | in place, with the read cursor ahead of the write cursor, leaves the unquoted string and touches nothing around it |
| `Quoting.Compact` | lvm2/libdm/libdm-string.c:262-276 | the second loop, from the first quoted character on |
| `Quoting.UnquoteUndoesQuote` | lvm2/libdm/libdm-string.c:239-279 | unquoting undoes quoting, for every string and pair of characters |
| `Quoting.EscapeAndBack` | lvm2/libdm/libdm-string.c:389-405 | escaping into exactly `dm_escaped_len` characters and unescaping in place gives the string back |
| `DmName.Build` | lvm2/libdm/libdm-string.c:326-363 | the buffer of the computed length holds the name and its NUL, with one spare character only for a layer that begins with an underscore |
| `DmName.BuildLength` | lvm2/libdm/libdm-string.c:329-341 | the computed length never falls short of the name |
| `DmName.Unquote` | lvm2/libdm/libdm-string.c:69-93 | leaves the first component, terminated, where it was, the next one untouched behind it, and all before it alone |
| `DmName.SplitName` | lvm2/libdm/libdm-string.c:95-107 | the three pointers lead to the three components |
| `DmName.FirstSkipsQuoted` | lvm2/libdm/libdm-string.c:69-93 | a quoted component is read through as a whole, whatever follows |
| `DmName.SplitUndoesBuild` | lvm2/libdm/libdm-string.c:95-107 | splitting a built name returns its parts exactly when they are separable |
| `ConfigTokens.NextToken` | lvm2/libdm/libdm-config.c:686-807 | every token but the end takes at least one character, and never more than is left |
| `ConfigTokens.Cursor.SkipSpace` | lvm2/libdm/libdm-config.c:809-827 | stops at the first character that is neither space nor in a comment |
| `ConfigTokens.Cursor.ScanToken` | lvm2/libdm/libdm-config.c:705-806 | the type and the extent of the token, depending on the token before |
| `ConfigTokens.Cursor.GetToken` | lvm2/libdm/libdm-config.c:686-807 | on any bytes the cursor stays inside the text and moves forward, to the token that `NextToken` gives |
| `ConfigSyntax.CommentSkipped` | lvm2/libdm/libdm-config.c:809-827 | a comment ends with its line: what follows is read as without it |
| `ConfigSyntax.GapSkipped` | lvm2/libdm/libdm-config.c:809-827 | so is what follows any white space and comments |
| `ConfigSyntax.EndIsEof` | lvm2/libdm/libdm-config.c:686-697 | the text ends at its end or at a NUL, with or without a last comment |
| `ConfigParser.DupStringTok` | lvm2/libdm/libdm-config.c:421-440 | the text between the quotes, or a failure when there is no room for two |
| `ConfigParser.ReadType` | lvm2/libdm/libdm-config.c:614-672 | reads one scalar as `ParseType` says |
| `ConfigParser.ReadValue` | lvm2/libdm/libdm-config.c:575-612 | reads a scalar or an array as `ParseValue` says |
| `ConfigParser.ReadHead` | lvm2/libdm/libdm-config.c:529-551 | reads the key or path of an entry, never an empty one |
| `ConfigParser.ParseEntry` | lvm2/libdm/libdm-config.c:521-573 | every accepted entry consumes input |
| `ConfigParser.ReadSection` | lvm2/libdm/libdm-config.c:521-573 | the recursion ends on any bytes; the parent is changed exactly as the entry says |
| `ConfigParser.ReadBody` | lvm2/libdm/libdm-config.c:555-561 | the entries between braces are applied one after the other |
| `ConfigParser.ParseConfig` | lvm2/libdm/libdm-config.c:176-197 | on any text, ends with the tree that the text's entries describe, or refuses |
| `ConfigParser.NonEmptyTree` | lvm2/libdm/libdm-config.c:442-451 | only a text without entries gives an empty tree, which is refused |
| `ConfigParser.ParsedInOrder` | lvm2/libdm/libdm-config.c:158-197 | in every accepted text siblings never share a key, and at every path they stand in the order in which the text first mentions them |
| `ConfigValues.ParsedValues` | lvm2/libdm/libdm-config.c:521-573 | in every accepted text a path has the last value that the text gives it |
| `ConfigValues.ValueAppliedAll` | lvm2/libdm/libdm-config.c:521-573 | the same for the entries of a section, from any nodes on |
| `ConfigTree.FindNode` | lvm2/libdm/libdm-config.c:472-519 | the walk over the path's text finds the first node along its segments |
| `ConfigFlatten.SegmentsBack` | lvm2/libdm/libdm-config.c:472-519 | the text of a path has the keys it is made of |
| `ConfigTree.MadeFinds` | lvm2/libdm/libdm-config.c:472-519 | a path that was made is found, under its last key |
| `ConfigTree.UniqueMade` | lvm2/libdm/libdm-config.c:453-519 | making a path keeps siblings' keys different |
| `ConfigTree.UniqueAppliedAll` | lvm2/libdm/libdm-config.c:521-573 | so does every sequence of entries |
| `ConfigOrder.KeysAtMade` | lvm2/libdm/libdm-config.c:453-519 | at every place, making a path puts its next key in front unless it is there, and changes no other list |
| `ConfigOrder.KeysAtAppliedAll` | lvm2/libdm/libdm-config.c:521-573 | the keys at a place are the ones the entries mention there |
| `ConfigOrder.ConfigReverse` | lvm2/libdm/libdm-config.c:158-174 | every list of siblings is reversed, at every depth |
| `ConfigOrder.OrderOfFirstAppearance` | lvm2/libdm/libdm-config.c:158-174 | after the reversal, order of first appearance, each key once |
| `ConfigPrinter.Output.LineAppend` | lvm2/libdm/libdm-config.c:225-246 | fails above 4095 characters; at exactly 4095 the last one is lost |
| `ConfigPrinter.Output.WriteValues` | lvm2/libdm/libdm-config.c:273-358 | appends a scalar or an array |
| `ConfigPrinter.Output.WriteConfig` | lvm2/libdm/libdm-config.c:303-369 | when every piece fits, puts out exactly the lines of the tree |
| `ConfigSyntax.QuotedToken` | lvm2/libdm/libdm-config.c:739-751 | an escaped string is one token whatever it contains, and its text comes back |
| `ConfigSyntax.StrtollRead` | lvm2/libdm/libdm-config.c:626-630 | decimal and octal numbers with any sign are read as the nearest 64-bit integer |
| `ConfigSyntax.ScalarBack` | lvm2/libdm/libdm-config.c:614-672 | every spelling of a scalar, as a number, with a point, in double or single quotes or bare, is read as what it stands for |
| `ConfigSyntax.SpellingBack` | lvm2/libdm/libdm-config.c:575-612 | so is every array, with or without commas where these may be left out |
| `ConfigRoundTrip.IntegerBack` | lvm2/libdm/libdm-config.c:614-630 | a printed 64-bit integer is a spelling of it |
| `ConfigRoundTrip.ValuesBack` | lvm2/libdm/libdm-config.c:575-612 | printed values are a spelling of them |
| `ConfigRoundTrip.QuotedKeysAreGood` | lvm2/libdm/libdm-config.c:324-329 | a key with `#`, `"` or `!` in it is printed in quotes, whatever else it contains |
| `ConfigSyntax.ItemBack` | lvm2/libdm/libdm-config.c:521-573 | every spelling of an entry is read as what it says, whatever follows |
| `ConfigSyntax.LayoutIsFree` | lvm2/libdm/libdm-config.c:521-827 | however a file is laid out, with comments and white space between any two tokens, the parser finds the entries it says |
| `ConfigSyntax.HexRefused` | lvm2/libdm/libdm-config.c:757-785 | a hexadecimal number is read as its value, and what follows its zero as the next name |
| `ConfigRoundTrip.AppliedBack` | lvm2/libdm/libdm-config.c:472-519 | the entries of a tree build its reversal |
| `ConfigRoundTrip.ReversedTwice` | lvm2/libdm/libdm-config.c:158-174 | reversing twice changes nothing |
| `ConfigRoundTrip.RoundTrip` | lvm2/libdm/libdm-config.c:176-369 | parsing the printed lines gives the same tree, for every non-empty tree of integers, strings and arrays with good keys |
| `ConfigRoundTrip.CommentedRoundTrip` | lvm2/libdm/libdm-config.c:176-369 | the same with any blank lines, comments and white space before the lines and at the end |
| `ConfigRoundTrip.WriteAndParse` | lvm2/libdm/libdm-config.c:176-402 | the printer followed by the parser returns the tree |
| `ConfigFlatten.FindFirstNode` | lvm2/libdm/libdm-config.c:879-891 | the node of the first tree of the cascade that has the path |
| `ConfigFlatten.ViewOverridden` | lvm2/libdm/libdm-config.c:1336-1347 | overriding sets the value at exactly its path; missing nodes above it appear without value |
| `ConfigFlatten.FlatTree.OverridePath` | lvm2/libdm/libdm-config.c:1336-1347 | the same for the path's text |
| `ConfigFlatten.ViewEnumerated` | lvm2/libdm/libdm-config.c:1349-1369 | enumerating a tree lays it over the result: its leaves win, its sections only have to exist |
| `ConfigFlatten.FlatTree.Enumerate` | lvm2/libdm/libdm-config.c:1349-1369 | the recursion over path texts does that |
| `ConfigFlatten.FlatTree.Flatten` | lvm2/libdm/libdm-config.c:1371-1387 | the walk from the last tree of the cascade to the first |
| `ConfigFlatten.FlatView` | lvm2/libdm/libdm-config.c:1371-1387 | what the flattened tree has at every path: the first leaf of the cascade there, or a bare section, or nothing |
| `ConfigFlatten.FlattenKeepsLeaves` | lvm2/libdm/libdm-config.c:1371-1387 | whenever the cascaded lookup finds a leaf, the flattened tree has its value |
| `ConfigFlatten.FlattenAgrees` | lvm2/libdm/libdm-config.c:1371-1387 | both agree on a path exactly when no section there differs from the first leaf |
| `ConfigFlatten.FlattenPreserves` | lvm2/libdm/libdm-config.c:1371-1387 | both agree on every path when the trees agree on which paths are leaves and sections have no values |
| `ConfigFlatten.SectionValueLost` | lvm2/libdm/libdm-config.c:1349-1369 | a section with a value of its own loses it |
| `Selection.ParseEx` | lvm2/libdm/libdm-report.c:2810-2855 | consumes input, so the mutual recursion ends |
| `Selection.ParseAnd` | lvm2/libdm/libdm-report.c:2858-2887 | consumes input |
| `Selection.ParseOr` | lvm2/libdm/libdm-report.c:2890-2919 | consumes input |
| `Selection.AcceptsEx` | lvm2/libdm/libdm-report.c:2810-2855 | every comparison, group and negation of the language is parsed to its tree, whatever follows |
| `Selection.AcceptsAnd` | lvm2/libdm/libdm-report.c:2858-2887 | every AND chain is parsed into one flat node |
| `Selection.AcceptsOr` | lvm2/libdm/libdm-report.c:2890-2919 | every OR chain is parsed into one flat node, with AND binding tighter |
| `Selection.ReadsOr` | lvm2/libdm/libdm-report.c:2890-2919 | whatever is parsed is a text of the language |
| `Selection.ParsesTheLanguage` | lvm2/libdm/libdm-report.c:2970-2982 | the selections taken are exactly the texts of the language |
| `Selection.FlagMeansNegation` | lvm2/libdm/libdm-report.c:2821-2829 | a tree carries the NOT bit exactly for a negation in parentheses |
| `Selection.SelectionMeaning` | lvm2/libdm/libdm-report.c:2810-2919 | for every text and row, the tree's value is the standard value of the text with negations directly on negations dropped |
| `Selection.PlainMeaning` | lvm2/libdm/libdm-report.c:2810-2919 | it is the standard value when every chain of directly nested negations has length zero or odd |
| `Selection.ParityDecides` | lvm2/libdm/libdm-report.c:2821-2834 | for a chain of negations, with parentheses anywhere in it, over such a text: the standard value on a row exactly when its length is zero or odd |
| `Selection.ChainMeaning` | lvm2/libdm/libdm-report.c:2821-2834 | the same for k times `!( )` around a text |
| `Selection.DoubleNegationIsWrong` | lvm2/libdm/libdm-report.c:2821-2834 | two negations of a comparison evaluate like one on every row, and so do three |
| `SelectionExact.Meet` | lvm2/libdm/libdm-report.c:1533-1568 | a text that is no negation and repeats no comparison has rows on which standard and computed value are the same |
| `SelectionExact.DifferOrs` | lvm2/libdm/libdm-report.c:1533-1568 | a text with a chain of the wrong length has rows on which they differ |
| `SelectionExact.RightIffPlain` | lvm2/libdm/libdm-report.c:2810-2919 | a text without repeated comparisons is evaluated rightly on every row exactly when every chain of negations has length zero or odd |
| `Selection.CheckSelection` | lvm2/libdm/libdm-report.c:1533-1568 | evaluates the tree for a row, with its early exits |
| `Selection.CheckSet` | lvm2/libdm/libdm-report.c:1550-1561 | all (AND) or some (OR) of the operands hold |
| `StringList.LeTransitive` | lvm2/libdm/libdm-report.c:344-350 | the comparison is an order |
| `StringList.LeMeans` | lvm2/libdm/libdm-report.c:344-350 | the first difference decides, and a beginning comes first |
| `StringList.SortedIsUnique` | lvm2/libdm/libdm-report.c:344-350 | a list can be sorted in one way only |
| `StringList.LayOut` | lvm2/libdm/libdm-report.c:432-478 | the display string, and a position and length that cut out each item |
| `StringList.BuildIndex` | lvm2/libdm/libdm-report.c:352-495 | in both display modes the index cuts the sorted items out of the report string |
| `StringList.StrictAll` | lvm2/libdm/libdm-report.c:1366-1385 | true exactly when selection and value are equal as multisets |
| `StringList.SubsetAll` | lvm2/libdm/libdm-report.c:1388-1414 | with a cursor that never goes back, true exactly when every selected string occurs in the value |
| `StringList.FindFrom` | lvm2/libdm/libdm-report.c:1401-1408 | the last match at or after the cursor |
| `StringList.Any` | lvm2/libdm/libdm-report.c:1417-1440 | true exactly when some selected string occurs |
| `StringList.CmpStringList` | lvm2/libdm/libdm-report.c:1442-1477 | the meaning of the four list forms and of their negations |

## Left out

- Ioctls, sysfs, `mknod`, `stat`, `rename`, SELinux, `/dev/urandom` and logging: they are a small state with calls that may fail.
- Configuration nodes are values: the parser changes linked nodes in place, the model replaces them at the same path; sharing and parent pointers are not captured.
- Memory: pools, hashes and lists are sequences and maps; running out of memory is modelled only where it changes a result that is promised.
- The sort that `qsort` does is some sorted permutation (`StringList.Sort`).
- Floating point: float values of configurations keep the text of their token and are not printed; percentages and size comparison are not modelled.
- ConfigPrinter.Output.WriteConfig: says nothing when a piece of a line is too long, because the line that a failed nested write leaves half built depends on the memory pool, which is not part of this model.
- ConfigRoundTrip.RoundTrip: keys that are printed without quotes but do not read as one identifier (a key with a space, say) are outside, because the printer quotes only for `#`, `"` and `!`.
- Mangle.UnmangleString: asks that every `\x` that is reached be followed by more than blanks, and by at least two characters when a digit follows; otherwise `sscanf` stores nothing or the fixed step of four characters leaves the string. What `%2x` makes of `0x` is not modelled.
- SegmentCounts.RaidParams: ends before the number of device pairs and the device list, which the count does not include; `TargetLines.RaidRead` is about the whole line.
- The words of snapshot, crypt, thin, thin-pool, cache and Bittern targets are given to `TableLoad`, which only emits them.
- Duplicate configuration values: the parser warns that it ignores them, and takes the last one; the model follows the code.
- SelectionExact.RightIffPlain: a text that repeats a comparison may be right although a chain in it is not, because another operand can decide the value; for such texts `Selection.SelectionMeaning` says what is computed.
- TableLoad.Task.EmitSegmentLine: that thin, thin-pool, cache and Bittern texts, and the heads and tails of mirror and RAID texts, reach the target whole is promised only up to 4095 characters, because the source cuts them there unnoticed.
- NodeOps.RenameReplaysIff: queues that hold a rename or rely on udev have `NodeOps.RenameReplaysExactly`, because there a kept operation may use the old name.
- NodeOps.RunReplays: no renames and no operations that rely on udev; renames have their own exact condition.
- Owner, group and mode of device nodes.
- StringList.SubsetAll: an empty selection, which the selection parser never builds, is answered with no.
- Selection works on tokens: the splitting of a selection string and the comparisons themselves are opaque.
- Udev flag rewriting when udev is disabled, and the printing of flag names by `dmsetup udevflags`.
- Deactivation, node creation, replicator targets, status parsing, row sorting, field compaction, units and uuids.
- liblvm, the Python binding, the command-line tools and the Bittern kernel module.
