# Ceph OSD thrasher, pool bookkeeping and rbd-mirror image removal, in Dafny

This project models three pieces of the Ceph repository and proves properties of them.

1. **The `Thrasher` of the teuthology QA suite** (`qa/tasks/ceph_manager.py`). It stresses a test
   cluster by killing, reviving, marking out and marking in OSDs at random.
   - It keeps four lists of OSD ids: in, out, live and dead. The model is the class
     `Thrashing.Thrasher`, which updates those lists in place, as the Python does.
   - Every call into the cluster is one `Cluster.Command`, appended to the manager's `issued` trace.
   - Each random draw is a parameter (`val`, `coin`) or a nondeterministic choice (`:|`).
     So a postcondition holds whatever the draw was.
   - The class invariant `Valid` says that in/out and live/dead each partition the cluster's OSDs
     (`Lists.Partitions`: equal multisets, so no duplicates, disjoint and covering). Every operation
     preserves it.
   - The action table of `choose_action` and its weighted pick are `Actions`. The two toggle loops are
     `Toggles`.
2. **The `CephManager` pool table and state helpers** (same file).
   - `Manager.CephManager` holds the `pools` dictionary (name to pg_num) and the `next_pool_id` counter.
     Its methods create, remove, grow and shrink pools, and retry `osd pool set` on EAGAIN.
   - `OsdStatus` parses the `osd dump` text into the in/out/up/down lists.
   - `PgStats` holds the PG state histogram, the `get_num_*` counters, the cancel-force selection, the
     retry schedule of `wait_for_pg_stats` and the paging of `list_pg_unfound`.
3. **rbd-mirror's `image_deleter::ImageRemoveRequest`** (`src/tools/rbd_mirror/image_deleter/`). It is a
   callback state machine: it looks up the image's mirror info, writes the record back as DISABLING, then
   removes it, and completes its caller's `Context` once.
   - The model is `ImageDeleter.ImageRemoveRequest`: one method per step and handler.
   - The three results the cluster returns are inputs.
   - `ops` records the operations issued; the ghost field `steps` records the step order.

The shared vocabulary lives in `Cluster`: `Option`, `Result`, the Python exceptions as `Fault`, and the
cluster commands. `Text` covers `str.split`, substring tests, `int()` and decimal printing. `Lists` covers
`list.remove` and the multiset facts behind the partition invariant.

## Model

| member | source | states |
|---|---|---|
| Thrashing.Thrasher.constructor | qa/tasks/ceph_manager.py:101-156 | Takes the four lists from the OSD status and derives the settings (revive timeout +120 under powercycle, max/min PGs per OSD times the OSD count). Saves `mon_osd_down_out_interval` and sends `injectargs` setting it to 0 on every monitor. Valid when the lists have no duplicates and live+dead covers in+out. |
| Thrashing.Thrasher.KillOsd | qa/tasks/ceph_manager.py:195-211 | The victim is the given OSD or one drawn from live. Empty live raises IndexError; a victim not in live raises ValueError, changing nothing. Otherwise the first occurrence leaves live and the victim is appended to dead. In/out move only when `mark_out` is set and the OSD was in. It issues the kill, then a mark-down when asked, then a mark-out when the OSD was moved out. Partitions are preserved. |
| Thrashing.Thrasher.Kill | qa/tasks/ceph_manager.py:205-211 | The list moves and commands of a kill whose victim is live. |
| Thrashing.Thrasher.ReviveOsd | qa/tasks/ceph_manager.py:386-404 | The revive command is sent before the list check, so a victim missing from dead raises ValueError after that command. Otherwise it moves from dead to the end of live. With `random_eio` > 0 and the victim equal to the read-error OSD, it re-sends both read-error options; reading `rerrosd` before `do_thrash` set it raises AttributeError. In/out untouched; partitions preserved. |
| Thrashing.Thrasher.BringBack | qa/tasks/ceph_manager.py:398-404 | The dead-to-live move and the read-error settings of a revive. |
| Thrashing.Thrasher.OutOsd | qa/tasks/ceph_manager.py:407-418 | Mark-out is issued first. Then the OSD moves from in to the end of out, or ValueError when it was not in. IndexError on an empty in list. Live/dead untouched; partitions preserved. |
| Thrashing.Thrasher.InOsd | qa/tasks/ceph_manager.py:420-433 | A dead OSD is only revived: in/out unchanged. Otherwise it moves from out to the end of in and mark-in is issued. ValueError when it was not out; IndexError on an empty out list. Partitions preserved. |
| Thrashing.Thrasher.MarkIn | qa/tasks/ceph_manager.py:430-432 | The out-to-in move of an OSD that is out: the first occurrence leaves out, it is appended to in, and mark-in is its one command. Live/dead untouched; partitions preserved. |
| Thrashing.Thrasher.AllUp | qa/tasks/ceph_manager.py:607-616 | `revived` and `marked` are the OSDs in the order the random choices took them. On success dead and out end empty, `revived` holds exactly the old dead OSDs and `marked` exactly the old out OSDs. The only failure is AttributeError at the first revive, when the read-error OSD is unset; that revive has already moved its OSD. Always: live grows by `revived`, in by `marked`, and the commands issued are exactly the revive commands of `revived`, then one mark-in per OSD of `marked`. Under the invariant, live and in end holding every OSD once. |
| Thrashing.Thrasher.MarkAllIn | qa/tasks/ceph_manager.py:614-616 | With nothing dead, marks random out OSDs in until out is empty. `marked` holds exactly the old out OSDs, in is the old in list plus `marked`, and the commands are one mark-in per OSD of `marked`, in order. |
| Thrashing.Thrasher.MarkAnyIn | qa/tasks/ceph_manager.py:614-616 | One `in_osd()` with nothing dead: an OSD of out moves to in, and the run of mark-ins grows by it. |
| Thrashing.Thrasher.ReviveAny | qa/tasks/ceph_manager.py:611-613 | One `revive_osd()` on a non-empty dead list: an OSD of dead moves to live with its revive commands. It raises AttributeError exactly when the read-error OSD is unset. |
| Thrashing.RevivedFromStep | qa/tasks/ceph_manager.py:611-613 | One more revive of a dead OSD extends a run of revives: the lists and the command trace advance by that OSD. |
| Thrashing.MarkedFromStep | qa/tasks/ceph_manager.py:614-616 | One more mark-in of an out OSD extends a run of mark-ins: the lists and the command trace advance by that OSD. |
| Thrashing.ReviveTraceRevivesEach | qa/tasks/ceph_manager.py:386-404 | Each revived OSD's restart command is in the revive trace. |
| Thrashing.MarkInTrace | qa/tasks/ceph_manager.py:614-616 | One mark-in command per OSD, at its own index. |
| Thrashing.Thrasher.AllUpIn | qa/tasks/ceph_manager.py:618-627 | Everything AllUp states, with the same outcome. On success the commands issued are exactly AllUp's, followed by reweight 1 and primary-affinity 1 for each live OSD, in list order. |
| Thrashing.Thrasher.FullyIn | qa/tasks/ceph_manager.py:623-627 | The commands issued are exactly reweight 1 and primary-affinity 1 for each live OSD, in list order. |
| Thrashing.FullyInCommandsEach | qa/tasks/ceph_manager.py:623-627 | Two commands per live OSD: reweight 1 at index 2k and primary-affinity 1 at 2k+1. |
| Thrashing.Thrasher.ReviveDownTo | qa/tasks/ceph_manager.py:1000-1001 | Revives random dead OSDs until at most `max_dead` are dead. `revived` holds exactly the OSDs that left dead, in order. Live grows by `revived`, and the commands issued are exactly their revive commands. The first revive raises AttributeError when the read-error OSD is unset, after moving one OSD; a negative `max_dead` ends in IndexError once dead is empty. In/out untouched; partitions preserved. |
| Thrashing.Thrasher.ChooseAction | qa/tasks/ceph_manager.py:811-882 | The action is the weighted walk over the table as written, built from the current list sizes; both pause pairs in it pause `filestore_inject_stall`. Out-marking is returned only when \|in\| > min_in, and kill only when \|live\| > min_live and chance_down > 0. In-marking is returned only when \|out\| > min_out, and revive only when \|dead\| > min_dead. |
| Thrashing.Thrasher.ThrashStep | qa/tasks/ceph_manager.py:1018 | `self.choose_action()()`. The chosen action is the walk of the table as built from the lists before the call. Calling the None returned past the total weight raises TypeError and changes nothing. An OSD move has the effect `OsdMoved` gives, a pool action the effect `PoolActed` gives, and any other action changes nothing. The read-error OSD, the saved options and the pool counter are kept; partitions preserved. |
| Thrashing.Thrasher.RunAction | qa/tasks/ceph_manager.py:1018 | Calling the chosen action: an OSD move satisfies `OsdMoved`, a pool action `PoolActed`, and a table-only action returns normally with nothing changed. |
| Thrashing.Thrasher.MoveOsd | qa/tasks/ceph_manager.py:829-836 | `out_osd()`, `kill_osd()`, `in_osd()` or `revive_osd()` with default arguments, as `OsdMoved` states for each. The moved OSD is drawn from the right list, or IndexError with nothing changed when that list is empty. The exact list moves and the exact commands: the mark-out; the kill; the revive with its read-error options; the mark-in. The other list pair and the pools are untouched. |
| Thrashing.Thrasher.ActOnPool | qa/tasks/ceph_manager.py:841-846 | `grow_pool`, `shrink_pool` or `fix_pgp_num()` on a drawn pool, as `PoolActed` states for each. ValueError with nothing changed on an empty table. Otherwise it returns what the action returned, with the exact pg_num or pgp_num set commands and their EAGAIN retries. The new pool table and pools to fix are given for each case. The OSD lists are untouched. |
| Thrashing.Thrasher.GrowPool | qa/tasks/ceph_manager.py:648-658 | The pool is drawn from the table, or ValueError with nothing changed when the table is empty. Grows it by `pool_grow_by` unless PGs are creating or the result would exceed max_pgs (False, nothing sent). When it grows, the commands sent are exactly the pg_num set and its EAGAIN resends, raising after more than 50. The pool is added to the pools to fix exactly on success. The OSD lists and the pool counter are kept. |
| Thrashing.Thrasher.ShrinkPool | qa/tasks/ceph_manager.py:660-671 | The same for shrinking by `pool_shrink_by` with the min_pgs floor: nothing sent when PGs are creating or the result would fall below min_pgs, and otherwise exactly the pg_num set and its EAGAIN resends. The pool is added to the pools to fix exactly on success; the OSD lists and the pool counter are kept. |
| Thrashing.Thrasher.FixPgpNum | qa/tasks/ceph_manager.py:673-684 | A given pool is forced; a drawn one waits while PGs are creating. On success, and on EAGAIN exhaustion, the commands are the pgp_num set to the recorded pg_num, once per attempt; in every other case nothing is issued. Only on success does the pool leave the set to fix. An unknown pool raises AssertionError. |
| Thrashing.Thrasher.StartThrash | qa/tasks/ceph_manager.py:984-991 | The read-error OSD is the first live OSD (IndexError when none). Both read-error options are injected into it when `random_eio` > 0. |
| Thrashing.Thrasher.FinishThrash | qa/tasks/ceph_manager.py:1020-1033 | The shutdown. The commands issued are exactly: the revives of `revived`, the mark-ins of `marked`, the two read-error options reset to "0.0" when `random_eio` > 0, the pgp_num sets of the pools in `order` that still have PGs, and, on success, the saved options restored on every daemon then reweight and primary-affinity 1 for every live OSD. AttributeError exactly when `random_eio` > 0 and the read-error OSD is unset; otherwise only EAGAIN exhaustion can fail it. On success `revived` and `marked` are exactly the old dead and out OSDs, `order` visits every pool to fix once, and dead, out, the set to fix and the saved options end empty. Partitions preserved. |
| Thrashing.Thrasher.CloseDown | qa/tasks/ceph_manager.py:1026-1033 | With everything up and in: the pgp_num catch-up, then, on success, the restores and the full-weight commands, exactly in that order. |
| Thrashing.Thrasher.PutBack | qa/tasks/ceph_manager.py:1030-1033 | With everything up and in: exactly the restore commands of the saved options, then reweight and primary-affinity 1 for every live OSD; the saved options end empty and no list moves. |
| Thrashing.Thrasher.ResetReadErrors | qa/tasks/ceph_manager.py:1021-1025 | Sends both read-error options as "0.0" to the read-error OSD when `random_eio` > 0, and nothing otherwise; AttributeError, with nothing sent, when it was never set. |
| Thrashing.Thrasher.DrainPoolsToFix | qa/tasks/ceph_manager.py:1026-1029 | `order` is the iteration order: each pool at most once, all of them on success. The commands issued are exactly the pgp_num sets of the pools of `order` that have PGs, once per attempt. The pools that caught up leave the set, which ends empty on success. Only EAGAIN exhaustion can raise, at the last pool of `order`. |
| Thrashing.Thrasher.FixNext | qa/tasks/ceph_manager.py:1027-1028 | One pool of the catch-up: a forced fix when it has PGs. It raises exactly when it has PGs and more than 50 EAGAIN answers came; the run's commands and the set to fix advance by that pool. |
| Thrashing.DrainTraceSetsEach | qa/tasks/ceph_manager.py:1026-1028 | Every visited pool that has PGs gets its pgp_num set to its pg_num in the catch-up's commands. |
| Thrashing.Thrasher.RestoreSavedOptions | qa/tasks/ceph_manager.py:1030-1032 | Sends one `injectargs` to every daemon per saved option, in order, then clears the list. |
| Thrashing.RestoreCommandsEach | qa/tasks/ceph_manager.py:1030-1031 | Each saved option's restore command appears at its own index. |
| Thrashing.Thrasher.DoNoscrubToggle | qa/tasks/ceph_manager.py:949-973 | The commands are those of the four-state cycle for the given number of rounds, followed by unsetting noscrub and nodeep-scrub. |
| Thrashing.Thrasher.DoOptrackToggle | qa/tasks/ceph_manager.py:909-929 | One `osd_enable_op_tracker` injection per round, with the alternating value. |
| Toggles.ScrubTraceTracksState | qa/tasks/ceph_manager.py:956-971 | One flag command per round, and the flags those commands leave set are exactly the flags the loop's state names. |
| Toggles.ScrubPeriod | qa/tasks/ceph_manager.py:958-970 | none → noscrub → both → nodeep-scrub → none has period four. |
| Toggles.ScrubCycle | qa/tasks/ceph_manager.py:958-970 | After every whole number of cycles the state is back to none. |
| Toggles.ScrubFlagsClearedAtEnd | qa/tasks/ceph_manager.py:958-973 | After any number of rounds and the two final unsets, no scrub flag is set. |
| Toggles.OptrackAlternates | qa/tasks/ceph_manager.py:916-922 | Starting from "true", round k sends "false" for even k and "true" for odd k. |
| Toggles.OptrackTraceValues | qa/tasks/ceph_manager.py:918-926 | Round k of the trace injects the k-th value into every OSD. |
| Actions.SettingsOf | qa/tasks/ceph_manager.py:113-132 | max_pgs and min_pgs are the per-OSD settings times the OSD count. The upmap-items chance equals the upmap chance. |
| Actions.UpmapItemsKeyIgnored | qa/tasks/ceph_manager.py:125-126 | The `chance_thrash_pg_upmap_items` key has no effect on the settings, because line 126 reads the upmap key. |
| Actions.TableGuards | qa/tasks/ceph_manager.py:815-836 | Each of out/kill/in/revive is in the table if and only if its guard holds; an integer chance_down counts as hundredths. |
| Actions.OsdEntriesGuards | qa/tasks/ceph_manager.py:828-836 | The same four equivalences for the guarded OSD entries alone. |
| Actions.OtherEntriesMoveNoOsd | qa/tasks/ceph_manager.py:837-874 | None of the entries after the four OSD moves is an OSD move, so the guards are the only way to reach them. |
| Actions.TableNonNegative | qa/tasks/ceph_manager.py:828-874 | With non-negative configured chances, every weight in the table is non-negative. |
| Actions.HeartbeatPauseLost | qa/tasks/ceph_manager.py:860-874 | As written, no entry pauses `heartbeat_inject_failure`, with the same weights as intended; the intended list pauses both keys. |
| Actions.PauseScenariosOfKeys | qa/tasks/ceph_manager.py:860-874 | The intended pause entries: short and long pause for heartbeat, then for filestore. |
| Actions.PauseScenariosAsWrittenOfKeys | qa/tasks/ceph_manager.py:860-874 | As written, the pause entries are the short and long pause for `filestore_inject_stall`, twice. |
| Actions.CorrectionKeepsChoice | qa/tasks/ceph_manager.py:860-882 | The table as written and the intended table have the same length and stop at the same entry for every draw. Where they differ, both entries are pauses and the intended one pauses `heartbeat_inject_failure`. |
| Actions.WalkIndexWeights | qa/tasks/ceph_manager.py:876-882 | Where the walk stops depends only on the weights. |
| Actions.WalkIndexBand | qa/tasks/ceph_manager.py:876-882 | The walk returns nothing exactly when the draw is at least the total weight. Otherwise the chosen entry's band contains the draw and its weight is positive, so a zero-weight action is never returned. |
| Actions.WalkIndexUnique | qa/tasks/ceph_manager.py:876-882 | The draw lies in the band of exactly the entry the walk returns. |
| Actions.WalkAtIndex | qa/tasks/ceph_manager.py:878-882 | The returned action is the action of the entry at the walk's index. |
| Actions.WalkPicksFromTable | qa/tasks/ceph_manager.py:878-880 | A returned action is one of the table's actions. |
| Actions.TotalNonNegative | qa/tasks/ceph_manager.py:876 | Non-negative weights have a non-negative total. |
| Actions.UptoMonotone | qa/tasks/ceph_manager.py:876-882 | Partial weight sums grow along the table. |
| Actions.PickAction | qa/tasks/ceph_manager.py:876-882 | The loop that subtracts each weight from the draw returns the walk's choice. It returns None exactly when the draw reaches the total; otherwise it returns an entry of positive weight whose band contains the draw. |
| Manager.CephManager.constructor | qa/tasks/ceph_manager.py:1114-1140 | The table records every listed pool whose pg_num could be read; the counter starts at 0. |
| Manager.CephManager.GetPoolPgNum | qa/tasks/ceph_manager.py:1703-1711 | The recorded pg_num, or 0 for an unknown pool. |
| Manager.CephManager.GetPool | qa/tasks/ceph_manager.py:1696-1701 | A recorded pool, or ValueError exactly when the table is empty. |
| Manager.CephManager.CreatePool | qa/tasks/ceph_manager.py:1624-1663 | An existing name raises AssertionError and changes nothing. Otherwise it issues create, min_size, overwrite and application commands and records the given pg_num. |
| Manager.CephManager.CreatePoolWithUniqueName | qa/tasks/ceph_manager.py:1599-1616 | The name is `unique_pool_` plus the counter; the counter advances by one even when creation fails. |
| Manager.UniquePoolNamesDistinct | qa/tasks/ceph_manager.py:1606-1609 | Different counter values give different names. |
| Manager.CephManager.RemovePool | qa/tasks/ceph_manager.py:1683-1694 | An unknown name raises AssertionError. Otherwise only that entry is deleted, it then reads back as 0, and the remove command is sent. |
| Manager.CephManager.SetPoolProperty | qa/tasks/ceph_manager.py:1730-1760 | The set is sent once per EAGAIN answer plus once more, at most 51 times. It raises exactly when more than 50 EAGAIN answers came. |
| Manager.CephManager.ExpandPool | qa/tasks/ceph_manager.py:1762-1778 | An unknown pool raises AssertionError. Returns False, with nothing issued and the table unchanged, exactly when PGs are creating or pg_num + by would exceed max_pgs. Otherwise the set is retried on EAGAIN. On success pg_num grows by exactly `by` and stays within max_pgs. |
| Manager.CephManager.ContractPool | qa/tasks/ceph_manager.py:1780-1801 | An unknown pool raises AssertionError. Returns False, with nothing issued and the table unchanged, exactly when PGs are creating or pg_num − by would fall below min_pgs. Otherwise the set is retried on EAGAIN. On success pg_num shrinks by exactly `by` and stays at least min_pgs. |
| Manager.CephManager.SetPoolPgpNum | qa/tasks/ceph_manager.py:1821-1831 | An unknown pool raises AssertionError. Returns False, with nothing issued, exactly when not forced and PGs are creating. Otherwise it sets pgp_num to the recorded pg_num, retrying on EAGAIN; the table is never changed. |
| OsdStatus.GetOsdStatus | qa/tasks/ceph_manager.py:1552-1580 | `raw` holds the OSD lines. The result is an error exactly when some OSD line carrying " in ", " out ", " up " or " down " has an id that does not parse. live and dead together hold every daemon once. |
| OsdStatus.OsdLines | qa/tasks/ceph_manager.py:1556-1558 | Exactly the lines that start with `osd.` and mention up or down. |
| OsdStatus.Tagged | qa/tasks/ceph_manager.py:1560-1567 | Exactly the lines containing the marker. |
| OsdStatus.IdsOf | qa/tasks/ceph_manager.py:1560-1567 | Succeeds exactly when every line's id parses, giving the ids in line order. Otherwise it fails with the fault of the first bad line. |
| OsdStatus.IdsOfFault | qa/tasks/ceph_manager.py:1560-1561 | A failure is the fault of a line all of whose predecessors parse. |
| OsdStatus.ListedOsd | qa/tasks/ceph_manager.py:1556-1565 | Every OSD line saying " in " (resp. " up ") puts its id in the in (resp. up) list. |
| OsdStatus.StatusListsExact | qa/tasks/ceph_manager.py:1552-1567 | For each of " in ", " out ", " up " and " down ": an id is in that list if and only if some OSD line of `raw` mentions the tag and has that id. |
| OsdStatus.TaggedExact | qa/tasks/ceph_manager.py:1560-1567 | The parsed ids of the lines carrying one tag are exactly the ids of the lines that carry it. |
| OsdStatus.IdsOfExact | qa/tasks/ceph_manager.py:1560-1561 | When every id parses, an id is in the result if and only if some line has it. |
| OsdStatus.OsdIdOfLine | qa/tasks/ceph_manager.py:1560-1561 | `osd.N` followed by a blank or nothing reads back as N. |
| OsdStatus.OsdIdOfBlank | qa/tasks/ceph_manager.py:1560-1561 | Nothing but blanks after `osd.` raises IndexError. |
| OsdStatus.DaemonsSplit | qa/tasks/ceph_manager.py:1568-1577 | live and dead together hold each daemon id exactly as often as the daemon list. |
| OsdStatus.LiveDeadPartition | qa/tasks/ceph_manager.py:1568-1577 | With distinct daemon ids, live and dead partition them, which is the Thrasher's live/dead invariant. |
| PgStats.CompilePgStatus | qa/tasks/ceph_manager.py:1901-1912 | The histogram's keys are exactly the `+`-separated state tokens of all PGs, each mapped to its number of occurrences. |
| PgStats.CountTokens | qa/tasks/ceph_manager.py:1907-1911 | The inner loop adds one state's tokens to the histogram. |
| PgStats.HistogramCoversStates | qa/tasks/ceph_manager.py:1901-1912 | Every token of every PG's state has a count of at least one. |
| PgStats.TokensAtLeastPgs | qa/tasks/ceph_manager.py:1907 | There are at least as many tokens as PGs. |
| PgStats.GetNum | qa/tasks/ceph_manager.py:2061-2149 | Each `get_num_*` loop returns the number of PGs whose state passes that counter's substring test. |
| PgStats.CountAllIff | qa/tasks/ceph_manager.py:2061-2149 | A counter equals the number of PGs in the dump exactly when every PG of the dump passes its test. |
| PgStats.CountMonotone | qa/tasks/ceph_manager.py:2061-2149 | A counter whose test implies another's counts no more PGs. |
| PgStats.CountOrder | qa/tasks/ceph_manager.py:2072-2149 | active+clean ≤ active, active+recovered ≤ active, active ≤ active-or-down, down ≤ active-or-down ≤ active + down. |
| PgStats.CountOf | qa/tasks/ceph_manager.py:2061-2149 | A count never exceeds the number of PGs. |
| PgStats.PgidsToCancelForce | qa/tasks/ceph_manager.py:1885-1899 | The picked ids and the coins used are those of the filter that draws a coin only for a PG whose state holds the forced token. |
| PgStats.CancelPicks | qa/tasks/ceph_manager.py:1896-1898 | Every picked id belongs to a PG holding the forced token. |
| PgStats.CancelDraws | qa/tasks/ceph_manager.py:1896-1897 | Exactly one coin is drawn per PG holding the token, whatever the coins say. |
| PgStats.CancelExtremes | qa/tasks/ceph_manager.py:1896-1898 | With every coin up, exactly the forced PGs are picked, in order; with none up, none is. |
| PgStats.WaitForPgStats | qa/tasks/ceph_manager.py:1418-1433 | At most eight calls, sleeping 1,1,2,3,5,8,13,0 seconds after successive AssertionErrors. The first outcome that is not an AssertionError is returned at once; after eight AssertionErrors one is raised. |
| PgStats.SleepBound | qa/tasks/ceph_manager.py:1422 | The retries sleep at most 33 seconds in all. |
| PgStats.ListPgUnfound | qa/tasks/ceph_manager.py:1833-1854 | Queries continue until the first answer without `more` or with `more` 0. The first offset is `{}`, later ones are the previous answer's last oid. The result is all objects up to that answer, without `more`. An answer that asks for more but lists nothing raises IndexError. |
| PgStats.FirstStop | qa/tasks/ceph_manager.py:1846-1849 | The first answer that stops the loop, with no earlier one stopping it. |
| PgStats.ConcatKeepsObjects | qa/tasks/ceph_manager.py:1842-1844 | Every object of every page read is in the result. |
| ImageDeleter.ImageRemoveRequest.constructor | src/tools/rbd_mirror/image_deleter/ImageRemoveRequest.h:35-42 | The five arguments are stored unchanged; no operation issued yet. |
| ImageDeleter.ImageRemoveRequest.Create | src/tools/rbd_mirror/image_deleter/ImageRemoveRequest.h:26-33 | A fresh request with the same fields as the constructor gives. |
| ImageDeleter.ImageRemoveRequest.Send | src/tools/rbd_mirror/image_deleter/ImageRemoveRequest.cc:32-34 | Starts with the mirror-info lookup and runs to the end. The callback is completed once with the first negative step result, or with the removal's result. The request is destroyed afterwards. |
| ImageDeleter.ImageRemoveRequest.GetMirrorInfo | src/tools/rbd_mirror/image_deleter/ImageRemoveRequest.cc:36-47 | Issues the lookup, then runs the rest of the request. The callback gets the same single code as from Send, and the operations and steps are those of the same run. |
| ImageDeleter.ImageRemoveRequest.HandleGetMirrorInfo | src/tools/rbd_mirror/image_deleter/ImageRemoveRequest.cc:49-65 | -ENOENT or any negative result finishes with that code and issues nothing more; otherwise it disables. |
| ImageDeleter.ImageRemoveRequest.DisableMirrorImage | src/tools/rbd_mirror/image_deleter/ImageRemoveRequest.cc:67-82 | The record's state becomes DISABLING before the set operation carrying it is issued. |
| ImageDeleter.ImageRemoveRequest.HandleDisableMirrorImage | src/tools/rbd_mirror/image_deleter/ImageRemoveRequest.cc:84-106 | -ENOENT, -EEXIST, -EINVAL or any negative result finishes with that code and no removal; otherwise it removes. |
| ImageDeleter.ImageRemoveRequest.RemoveMirrorImage | src/tools/rbd_mirror/image_deleter/ImageRemoveRequest.cc:108-121 | Issues the removal, then completes the callback once with the removal's result. |
| ImageDeleter.ImageRemoveRequest.HandleRemoveMirrorImage | src/tools/rbd_mirror/image_deleter/ImageRemoveRequest.cc:123-135 | Finishes with the removal's own result, whether 0, -ENOENT or another error. |
| ImageDeleter.ImageRemoveRequest.Finish | src/tools/rbd_mirror/image_deleter/ImageRemoveRequest.cc:136-142 | Completes the callback with r exactly once and destroys the request; no step can run afterwards. |
| ImageDeleter.FailedLookupWritesNothing | src/tools/rbd_mirror/image_deleter/ImageRemoveRequest.cc:53-62 | A negative lookup result, -ENOENT included, is the final code, and no write is issued. |
| ImageDeleter.FailedDisableNeverRemoves | src/tools/rbd_mirror/image_deleter/ImageRemoveRequest.cc:88-103 | A negative DISABLING result is the final code, and the removal is never issued. |
| ImageDeleter.RemoveFinishesWithOwnCode | src/tools/rbd_mirror/image_deleter/ImageRemoveRequest.cc:127-134 | After two successful steps the final code is the removal's, and exactly lookup, set and remove were issued. |
| ImageDeleter.ResultNegativeIff | src/tools/rbd_mirror/image_deleter/ImageRemoveRequest.cc:49-135 | The final code is negative exactly when some step failed, and it is one of the three step results. |
| ImageDeleter.WritesInOrder | src/tools/rbd_mirror/image_deleter/ImageRemoveRequest.cc:64-121 | The writes come in the order set-DISABLING then remove, each at most once, and the set stores state DISABLING. |
| ImageDeleter.EachOpOnce | src/tools/rbd_mirror/image_deleter/ImageRemoveRequest.cc:32-121 | The lookup is first, at most three operations are issued, and none is issued twice. |
| ImageDeleter.StepsFollowImplementedOrder | src/tools/rbd_mirror/image_deleter/ImageRemoveRequest.h:47-68 | Every run follows the documented order minus the unimplemented GET_MIRROR_IMAGE_ID step, and ends in exactly one finish. |
| ImageDeleter.RunOnce | src/tools/rbd_mirror/image_deleter/ImageRemoveRequest.h:26-44 | A request created and sent once completes its callback exactly once and ends destroyed. |
| Lists.MoveKeepsPartition | qa/tasks/ceph_manager.py:205-206 | Removing an OSD from one list and appending it to the other keeps the pair a partition. |
| Lists.PartitionMeaning | qa/tasks/ceph_manager.py:106-109 | A partition has no duplicates in either list, the lists are disjoint, and together they cover the set. |

## Left out

- Greenlets: `do_thrash`, the toggles, `do_sighup` and `do_dump_ops` run as separate greenlets, and `stopping` ends them. Each loop is modelled sequentially; its number of rounds is a parameter.
- Locking: `CephManager.lock` is not modelled.
- Sleeps: all sleeps and wall-clock waits are not modelled, including `wait_for_clean`, `wait_for_recovery`, `time.sleep` and `gevent.sleep`. `WaitForPgStats` returns the sleep durations instead of sleeping.
- The body of the `do_thrash` loop: its start, its clean-interval revive, one pass of `self.choose_action()()` (`ThrashStep`) and its shutdown are modelled, each on its own. The `while not self.stopping` loop that sequences them is not. The random clean interval, the reweights, the map-discontinuity test and scrubbing are not modelled either.
- Thrashing.Thrasher.ThrashStep: the actions that are only table entries (listed below) run as no-ops that change nothing. Their remote commands are not in `issued`.
- `kill_osd`: the ceph-objectstore-tool export/import block is remote execution.
- Actions that are only table entries: `reweight_osd_or_by_util`, `primary_affinity`, `thrash_cluster_full`, `thrash_pg_upmap`, `thrash_pg_upmap_items`, `force_cancel_recovery`, `test_pool_min_size`, `test_backfill_full`, `test_map_discontinuity` and `inject_pause`. Their effects are remote commands with no bookkeeping in the core.
- `get_pgids_to_force` is not part of this model; only `get_pgids_to_cancel_force` is.
- Cluster answers: failures of cluster commands (`CommandFailedError`) are not modelled.
- Command formatting: the CLI argument strings and JSON formats are not modelled.
- Reads of cluster state: get_config, `osd dump`, `pg dump`, `list_pools` and the pool properties are inputs. They are not commands in `issued`.
- Floating point: `random_eio` is a `real`. An unset `random_eio` (`None`) is read as 0.0; that is Python 2's `None > 0`, whereas Python 3 would raise TypeError there.
- Python version: the model reads the code as Python 2 throughout. Two more places depend on it:
  - `Manager.CephManager.GetPool` treats `random.sample(self.pools.keys(), 1)` as a draw from a list, failing only on an empty table. On Python 3.11 and later, sampling a dict view raises TypeError for every table.
  - `Text.IsSpace` is the whitespace of a Python 2 byte string. Python 3's `str.split()` also splits on the separators U+001C to U+001F and on non-ASCII spaces.
- `int()` accepts an optional sign and decimal digits only; underscores and surrounding blanks inside a field do not occur in `osd dump` ids.
- Integer width: counters and pg numbers are unbounded, as Python integers are.
- PgStats.CountAllIff: `is_clean`, `is_recovered` and `is_active_or_down` (qa/tasks/ceph_manager.py:2151-2167) and `is_active` (qa/tasks/ceph_manager.py:2347-2351) compare a counter with `get_num_pgs`, which reads `num_pgs` from `ceph status` (qa/tasks/ceph_manager.py:1582-1588), not with the length of the `pg dump` list. The lemma gives their meaning only when those two counts agree; the status read is not modelled.
- PgStats.ListPgUnfound: requires that some answer eventually stops the paging. The Python loops forever otherwise.
- PgStats.ListPgUnfound: the dictionary keys of the first answer other than `objects` and `more` are not modelled.
- ImageRemoveRequest: `aio_operate` is taken to return 0, since the source aborts through `ceph_assert` otherwise.
- ImageRemoveRequest: the GetInfoRequest, cls client and librados calls are abstracted as their results.
- ImageRemoveRequest: the private/public distinction is not expressible; `Send` is the only method a client is meant to call.

## Findings

| source | as written | input that shows it | evidently intended | confidence | as-written member | corrected member |
|---|---|---|---|---|---|---|
| qa/tasks/ceph_manager.py:860-874 | The `inject_pause` lambdas read the loop variable `key` when called. `do_thrash` calls the chosen lambda (line 1018) after the loop has ended, so `key` is always `filestore_inject_stall`. | A draw that picks either of the first two pause entries (the `heartbeat_inject_failure` pair) with `chance_inject_pause_short` > 0. | Each pair pauses its own fault point: one short and one long pause for `heartbeat_inject_failure`, and the same for `filestore_inject_stall`. | not executed | Actions.PauseScenariosAsWritten, Actions.HeartbeatPauseLost | Actions.PauseScenarios, Actions.CorrectionKeepsChoice |
