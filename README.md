# hot-loader registry model

A Dafny model of the bookkeeping in `HotLoader`, the inotify-based hot-reload
engine. A caller hands the loader `HotLoadTask`s, one per file. The loader
keeps three maps:

- `_tasks`: normalized file to task;
- `_ownerships`: file to `OWN_TASK` / `DOESNT_OWN_TASK`;
- `_watch_descriptors`: inotify watch descriptor to task.

It watches each file for `IN_CLOSE_WRITE | IN_IGNORED`. In each wake-up of the
worker, it folds the raw inotify records into one mask per descriptor. Then it
either fires the task's `on_reload` or, when the watch was invalidated
(`IN_IGNORED`), re-establishes it. A periodic sweep re-arms tasks whose watch
was lost.

Both versions of the engine are modelled, as separate classes:

- the single-header `hot_loader.h` (`SingleHeader.HotLoader`), which has
  `_initialized`/`_running` flags and a register that rolls back cleanly;
- the split `include/hot_loader.h` + `src/hot_loader.cpp` (`Split.HotLoader`),
  which has no init flag. Its register writes the file maps before creating
  the watch, and it registers the inotify descriptor with epoll on every
  registration.

Files:

- `inotify.dfy` (`Inotify`): the notification source. It stands in for the
  kernel and the file system:
  - the existing files;
  - what `normalize_path` makes of a path;
  - the live watches, and a monotone descriptor allocator with a finite
    budget (ENOSPC);
  - the epoll interest list, whose `epoll_ctl(ADD)` fails with EEXIST for a
    descriptor already present and EBADF for a negative one.
- `hot_load_task.dfy` (`Tasks`): `HotLoadTask`, with a constant file and a
  mutable watch descriptor that is -1 while unwatched.
- `events.dfy` (`Events`): raw `(wd, mask)` records and their coalescing.
  Event masks are sets of bit positions, so `|` is union.
- `registry.dfy` (`TaskRegistry`): the three maps, plus the code that is the
  same in both versions: the tail of `unregister_task`,
  `restart_stopped_tasks`, `rewatch_task` and the dispatch half of
  `work_loop`. It also holds `unregister_all_tasks`' loop (`Unwatch`,
  `UnwatchAll`, `Clear`), which only the single-header version has; the
  split version has no `unregister_all_tasks`. Calling `on_reload` appends
  the task to a ghost log `reloads`; `delete task` adds it to a ghost
  multiset `deleted`.
- `single_header.dfy` (`SingleHeader`) and `split_loader.dfy` (`Split`): the
  two loaders.
- `findings.dfy` (`Findings`): concrete runs that exhibit the finding below.

The model keeps these behaviours of the code:

- one task per file: a second task for a registered file is rejected, not
  attached to the existing watch;
- `rewatch_task` leaves the stale descriptor in `_watch_descriptors`;
- `unregister_all_tasks` does not reset the tasks' descriptors;
- in the split version, a failed epoll registration leaves the task in
  `_tasks` and `_ownerships`.

## Model

| member | source | states |
|---|---|---|
| Inotify.NotificationSource.Normalize | src/hot_load_task.cpp:5-27 | a non-empty normalized path names an existing regular file and is its own normal form, so normalizing twice gives the same path; an unknown path, and the empty path, normalize to "" |
| Inotify.NotificationSource.Exists | hot_loader.h:336-337 | `fs::exists` answers true exactly for existing files |
| Inotify.NotificationSource.AddWatch | hot_loader.h:132-135 | inotify_add_watch hands out the next fresh descriptor and records the watch when the fd is valid, the file exists and the budget allows; otherwise it returns -1 and changes nothing |
| Inotify.NotificationSource.RemoveWatch | hot_loader.h:357-359 | inotify_rm_watch on a valid fd removes exactly the live watch it names and returns its unit of budget; on anything else the source is unchanged; the files, normal forms, interest list and allocator never change |
| Inotify.NotificationSource.EpollAdd | src/hot_loader.cpp:83-89 | epoll_ctl(ADD) succeeds exactly when both fds are valid and the pair is not yet in the interest list; EEXIST exactly when the pair is there, EBADF exactly for a negative fd |
| Tasks.HotLoadTask.constructor | include/hot_load_task.h:8-9 | a new task's file is the normalized path and its descriptor is -1 |
| Tasks.HotLoadTask.SetWatchDescriptor | include/hot_load_task.h:26-28 | afterwards the descriptor is the one given; the file is a constant and cannot change |
| Events.CoalesceKeys | hot_loader.h:286-312 | a descriptor has a coalesced mask exactly when some raw record is for it |
| Events.CoalesceBits | hot_loader.h:304-309 | a coalesced mask has a bit exactly when some raw record for that descriptor has it: the mask is the OR of all of them |
| Events.CoalesceInvalidated | hot_loader.h:322 | the coalesced mask carries IN_IGNORED exactly when one of the descriptor's raw records did |
| Events.CoalesceIgnoresOrderAndRepeats | src/hot_loader.cpp:161-166 | two wake-ups delivering the same records, in any order and with any repetition, coalesce to the same masks |
| Events.CoalesceEvents | src/hot_loader.cpp:148-169 | the accumulation loop yields one mask per mentioned descriptor, the OR of its raw masks, and no other key |
| TaskRegistry.DeletedStep | hot_loader.h:197-206 | visiting one more file of the teardown adds its task to the deleted tasks exactly when it is owned, and that task was not already deleted, because each task is stored under its own file |
| TaskRegistry.DispatchedStep | hot_loader.h:317-328 | dispatching one more pending known descriptor keeps every handled descriptor appearing once, with its own outcome, and keeps the index equal to the old one plus the descriptors the rewatches obtained |
| TaskRegistry.FlattenAtMostOneEach | hot_loader.h:317-328 | when each dispatched descriptor fires at most one reload, a wake-up fires at most as many reloads as descriptors it dispatched |
| TaskRegistry.Registry.constructor | hot_loader.h:380-382 | a new registry has all three maps empty, has fired and deleted nothing, and is consistent |
| TaskRegistry.Registry.Enroll | src/hot_loader.cpp:74-75 | the task is entered under its own file with its ownership mode; every file keeps exactly one ownership mode |
| TaskRegistry.Registry.IndexTask | hot_loader.h:137-141 | the task takes the fresh descriptor and is indexed under it; no other index entry changes |
| TaskRegistry.Registry.ReleaseWatch | hot_loader.h:173-179 | the source releases the task's watch when it is live and changes nothing else; the index loses the task's descriptor only if it was ≥ 0, and the task ends with -1 |
| TaskRegistry.Registry.Forget | hot_loader.h:181-185 | the file leaves both file maps, and its task is deleted if and only if it was OWN_TASK |
| TaskRegistry.Registry.Remove | hot_loader.h:170-187 | successful unregister: file erased from both maps, the source releases the task's old watch, descriptor dropped from the index only if ≥ 0, descriptor reset to -1, task deleted iff OWN_TASK, nothing fired; the registry stays consistent and indexed |
| TaskRegistry.Registry.Rearm | hot_loader.h:340-347 | on a granted watch, on_reload fires once, and then the task takes the new descriptor and is indexed; on a refused one nothing changes |
| TaskRegistry.Registry.RewatchTask | hot_loader.h:352-376 | null does nothing; otherwise the old watch is released first; when the file exists and a watch is granted, the source records a fresh watch on the file, the task fires once and is indexed under the fresh descriptor; otherwise its descriptor is -1 and nothing fires; files, normal forms and interest list stay and the budget plus the live watches is conserved; existing index entries, including the stale one, stay |
| TaskRegistry.Registry.RestartTask | hot_loader.h:336-348 | a task is re-armed exactly when it was unwatched, its file exists and a watch is granted; then the source gains exactly one watch on the task's file under the next descriptor, the allocator moves on by one and one unit of budget is used; otherwise it keeps its descriptor, the watches, allocator and budget are unchanged, and nothing fires |
| TaskRegistry.Registry.Sweep | hot_loader.h:335-349 | exactly the re-armed tasks change descriptor; each was unwatched with an existing file, now holds a fresh indexed descriptor with a watch on its file, and fired on_reload once; every old watch and old index entry is kept unchanged, and every new watch or index entry belongs to a re-armed task; the allocator moves on and the budget goes down by one per re-arm, and an unwatched task with an existing file is left unwatched only when the budget is exhausted; files, normal forms and interest list stay |
| TaskRegistry.Registry.SweepStep | hot_loader.h:336-348 | one iteration of the sweep loop keeps the sweep's bookkeeping: the task visited is re-armed exactly as restart_stopped_tasks does it; the log, the index, the watches, the allocator and the budget change by exactly that re-arm; the normal forms and interest list stay |
| TaskRegistry.Registry.RestartStoppedTasks | src/hot_loader.cpp:189-207 | the sweep over all registered tasks: exactly the re-armed tasks change descriptor, each was unwatched with an existing file and is now indexed under a fresh descriptor with a watch on its file, and on_reload fired once for each; old watches and index entries are kept, new ones belong to re-armed tasks, the allocator moves on by one per re-arm, and an unwatched task with an existing file is skipped only when the watch budget is exhausted; files, normal forms and interest list stay |
| TaskRegistry.Registry.Unwatch | hot_loader.h:198-205 | one teardown step releases the task's watch on a valid fd and no other, drops its descriptor from the index when ≥ 0, and deletes the task exactly when owned; the files, normal forms, interest list and allocator are untouched |
| TaskRegistry.Registry.UnwatchAll | hot_loader.h:197-206 | the teardown loop releases the watch of every task it visits on a valid fd, keeps every other watch and returns the budget, and deletes exactly the owned tasks, each once |
| TaskRegistry.Registry.UnwatchStep | hot_loader.h:197-206 | one iteration of the teardown loop keeps its bookkeeping: the visited task's watch is gone from the source, no other watch changed, the budget is conserved, and the deleted tasks grow by the task exactly when owned |
| TaskRegistry.Registry.Clear | hot_loader.h:197-210 | after teardown all three maps are empty, no registered task's old descriptor is still a live watch, every other watch stays with the budget returned, each owned task was deleted exactly once, and nothing fired |
| TaskRegistry.Registry.Dispatch | hot_loader.h:318-327 | a known descriptor with IN_IGNORED goes to rewatch: the old watch is released; when the file exists and a watch is granted, the task fires once and is indexed under the fresh descriptor; otherwise it ends unwatched and nothing fires. Any other mask fires the task's on_reload exactly once and leaves the source unchanged. The allocator moves on only for a fresh descriptor, the budget plus the live watches is conserved, and existing index entries are never disturbed |
| TaskRegistry.RewiredUntouched | hot_loader.h:317-328 | a task that no dispatch in the wake-up routes to rewatch_task keeps the descriptor it had |
| TaskRegistry.RewiredLast | hot_loader.h:317-328 | a task routed to rewatch_task by some dispatch and by no later one ends with the descriptor that dispatch obtained |
| TaskRegistry.RestartKeepsBudget | hot_loader.h:336-348 | visiting one task of the sweep keeps the budget bookkeeping: a re-arm takes the next descriptor, one unit of budget and one reload; a task left alone that could have been re-armed met an empty budget |
| TaskRegistry.WatchedStep | hot_loader.h:317-328 | dispatching one more known descriptor keeps the watch bookkeeping of the pass: old watches no rewatched task held are unchanged, those a rewatched task held are gone, and every new watch is a fresh descriptor on the file of the task the index maps it to |
| TaskRegistry.DispatchKeeps | hot_loader.h:317-328 | dispatching one more known descriptor keeps the whole pass bookkeeping: dispatch order, log, index, task descriptors, allocator, budget and watches |
| TaskRegistry.Registry.DispatchStep | src/hot_loader.cpp:174-185 | one iteration of the dispatch loop keeps the pass bookkeeping, whether the descriptor is known or skipped |
| TaskRegistry.Registry.DispatchAll | src/hot_loader.cpp:174-185 | every coalesced descriptor the index knows is dispatched exactly once with its mask and unknown ones are skipped; each dispatch either fired its task once or left it unwatched on a failed rewatch; the reload log grows by exactly what those dispatches fired; the index gains exactly the descriptors the rewatches obtained; each task ends with the descriptor of its last rewatch in dispatch order, or keeps its own; an old watch no rewatched task held is kept unchanged, one a rewatched task held is released; every new watch is a fresh descriptor some rewatch obtained, on the file of its task; the allocator moves on once per fresh descriptor and the budget plus the live watches is conserved |
| TaskRegistry.Registry.HandleEvents | hot_loader.h:286-328 | for one wake-up: the descriptors dispatched are exactly those mentioned in the records and known to the index, each once, with its coalesced mask and the outcome Dispatch states; the reload log grows by exactly what they fired, at most one reload per descriptor; the index gains exactly the descriptors the rewatches obtained; a task no invalidated watch sent to rewatch keeps its descriptor, and any other ends with the descriptor its last rewatch obtained; the watches, allocator and budget change exactly as DispatchAll states; files, normal forms and interest list stay |
| SingleHeader.HotLoader.constructor | hot_loader.h:383-386 | a new loader is uninitialized, not running, with both fds -1 and all maps empty |
| SingleHeader.HotLoader.CloseFileDescriptors | hot_loader.h:253-262 | each open descriptor is reset to -1 and a closed one is left alone |
| SingleHeader.HotLoader.Init | hot_loader.h:85-113 | 0 with no change when already initialized; -1 when inotify fails, with the epoll fd untouched; -2 when epoll fails, with the inotify fd closed; -3 when the epoll registration fails, with both closed and the interest list unchanged; otherwise 0, initialized, and the inotify fd added to the interest list; no outcome touches the files, watches, allocator or budget |
| SingleHeader.HotLoader.RegisterTask | hot_loader.h:115-144 | -1 for null, -2 before init, -3 for a registered file, -4 for a refused watch, each with no change to the maps, the source or the task; otherwise 0, with the task's descriptor set to the next one, all three maps updated, exactly one new watch on the task's file, the allocator moved on by one and one unit of budget used, and files, normal forms and interest list unchanged |
| SingleHeader.HotLoader.UnregisterPath | hot_loader.h:153-188 | -2 before init, -3 for an empty normalized path, -4 for an unregistered file, each with no change; otherwise 0, the task registered under the normalized path is unregistered, its watch is released, and every other task keeps its descriptor |
| SingleHeader.HotLoader.UnregisterTask | hot_loader.h:146-151 | -1 for null with no change; otherwise the same outcome as unregistering the task's own file |
| SingleHeader.HotLoader.UnregisterAllTasks | hot_loader.h:190-213 | -1 before init with no change; otherwise 0, all maps empty and each owned task deleted exactly once; the source releases every registered task's watch, keeps every other watch and gets the budget back; on an empty registry nothing is deleted, so a second call deletes nothing more |
| SingleHeader.HotLoader.Run | hot_loader.h:215-229 | -1 when already running, -2 before init, otherwise 0 and running |
| SingleHeader.HotLoader.Stop | hot_loader.h:231-239 | the loader stops running, all maps are empty, each owned task is deleted exactly once, and the source releases every registered task's watch and keeps every other one |
| SingleHeader.HotLoader.RestartStoppedTasks | hot_loader.h:332-350 | the per-task effect of the registry's sweep over the registered tasks: which tasks are re-armed, their fresh indexed descriptors and watches, one on_reload each, old watches and index entries kept, new ones belonging to re-armed tasks, the allocator and budget used, and skipping only when the budget is exhausted; files, normal forms and interest list stay |
| SingleHeader.HotLoader.HandleEvents | hot_loader.h:286-328 | each known descriptor mentioned in the wake-up is dispatched exactly once with its coalesced mask and its outcome; the reload log grows by exactly what fired, at most one reload per descriptor; the index gains exactly the rewatched descriptors; a task no invalidated watch sent to rewatch keeps its descriptor, and any other ends with the descriptor its last rewatch obtained; old watches of tasks not rewatched are kept, those of rewatched tasks are released, new watches are fresh rewatch descriptors on their task's file, the allocator moves on once per fresh descriptor and the budget plus the live watches is conserved; files, normal forms and interest list stay |
| Split.HotLoader.constructor | include/hot_loader.h:64-68 | a new loader has both fds -1, is not running, and has all maps empty |
| Split.HotLoader.Init | src/hot_loader.cpp:39-52 | -1 when inotify fails, -2 when epoll fails, otherwise 0; the inotify result stays stored even after the -2 close |
| Split.HotLoader.Run | src/hot_loader.cpp:54-60 | returns 0 and the loader is running; a second call while the worker is joinable is modelled as succeeding too |
| Split.HotLoader.GrantWatch | src/hot_loader.cpp:77-89 | -3 exactly when the watch is refused, with the source unchanged; -4 exactly when the watch is granted but epoll_ctl fails, and then the watch is removed again, leaving the watches and interest list as they were with the allocator one step on; 0 otherwise, with exactly one new watch on the file under the next descriptor and the inotify fd in the interest list; as written, a pair already in the interest list always fails |
| Split.HotLoader.WatchEnrolled | src/hot_loader.cpp:77-95 | on -3 or -4 the task keeps its descriptor and the index, the watches and the interest list are unchanged; on 0 the task takes the fresh descriptor, is indexed under it, the source gains exactly its watch and the inotify fd is in the interest list; the allocator moves on except on -3 |
| Split.HotLoader.RegisterTask | src/hot_loader.cpp:62-96 | -1 for null and -2 for a registered file, with no change; otherwise the file maps take the task before the watch is tried, and the result is -3 (watch refused), -4 (epoll_ctl refused: bad fd or already added) or 0 (indexed under a fresh descriptor, with exactly that watch added and the inotify fd in the interest list); on any failure the watches and the interest list are as before; once the inotify fd is in the interest list, no registration can return 0 |
| Split.HotLoader.RegisterTaskCorrected | src/hot_loader.cpp:62-96 | the same, except that with EEXIST counted as success every granted watch registers with 0 whenever the epoll fd is valid, leaving the interest list with the inotify fd in it |
| Split.HotLoader.UnregisterPath | src/hot_loader.cpp:98-127 | -1 for an empty normalized path and -2 for an unregistered file, with no change; otherwise 0, the task is unregistered as in the registry's common tail, its watch is released, and every other task keeps its descriptor |
| Split.HotLoader.UnregisterTask | include/hot_loader.h:35-40 | -1 for null with no change; otherwise the same outcome as unregistering the task's own file |
| Split.HotLoader.RestartStoppedTasks | src/hot_loader.cpp:189-207 | the per-task effect of the registry's sweep over the registered tasks: which tasks are re-armed, their fresh indexed descriptors and watches, one on_reload each, old watches and index entries kept, new ones belonging to re-armed tasks, the allocator and budget used, and skipping only when the budget is exhausted; files, normal forms and interest list stay |
| Split.HotLoader.HandleEvents | src/hot_loader.cpp:148-185 | each known descriptor mentioned in the wake-up is dispatched exactly once with its coalesced mask and its outcome; the reload log grows by exactly what fired, at most one reload per descriptor; the index gains exactly the rewatched descriptors; a task no invalidated watch sent to rewatch keeps its descriptor, and any other ends with the descriptor its last rewatch obtained; old watches of tasks not rewatched are kept, those of rewatched tasks are released, new watches are fresh rewatch descriptors on their task's file, the allocator moves on once per fresh descriptor and the budget plus the live watches is conserved; files, normal forms and interest list stay |
| Findings.SecondRegistrationRejected | src/hot_loader.cpp:83-89 | as written, registering two tasks on two existing files returns 0 and then -4 |
| Findings.BothRegistrationsAccepted | src/hot_loader.cpp:83-89 | with the corrected epoll handling, the same two registrations both return 0 |
| Findings.RejectedTaskRearmedLater | src/hot_loader.cpp:62-96 | as written, the task refused with -4 stays registered unwatched, and the next sweep gives it a descriptor |
| Findings.SweepAfterRejection | src/hot_loader.cpp:189-207 | the sweep after the refused registration re-arms exactly that task and fires its on_reload once |

## Left out

- Threads, `std::mutex`, `std::atomic` and the worker thread: every operation is one atomic step. `run` only sets the flag and `stop` does not join.
- The system calls are calls on the notification source: `inotify_init1`, `epoll_create1`, `inotify_add_watch`, `inotify_rm_watch`, `epoll_ctl`, `close` and `fs::exists`. The results of `inotify_init1` and `epoll_create1` are parameters of `Init`.
- `epoll_wait`, `read` and the byte walk over `inotify_event` records are left out. A wake-up is the sequence of `(wd, mask)` records it reads. The `errno` retry and fatal-stop paths and the buffer-size constants are left out as well.
- `normalize_path` is not computed. It is a finite map from paths to canonical existing files, and any other path maps to "".
- Masks are sets of bit positions. Only IN_CLOSE_WRITE and IN_IGNORED are named.
- The order in which `std::unordered_map` iterates in the sweep, the teardown and the dispatch is unspecified. The model picks an arbitrary order, and each contract holds for every order.
- `stop` in `src/hot_loader.cpp` (lines 15-37) and the destructors are left out. That `stop` locks its mutex twice and erases from `_tasks` while iterating over it.
- `instance()` is left out. It is a process-wide singleton; the model constructs loaders directly.
- User overrides of `on_reload` are not modelled. The default does nothing, and a call is one entry in the ghost reload log.
- The getters `watch_file()` and `watch_descriptor()` are read as the fields `file` and `wd`.
- Use after free is not modelled. `rewatch_task` keeps the stale descriptor in the index, and `unregister_all_tasks` leaves descriptors on tasks it may have deleted. The model records both facts but does not track freed memory.
- Split.HotLoader.Run: a call while the previous worker thread is still joinable assigns a new `std::thread` to a joinable one (src/hot_loader.cpp:57), which calls `std::terminate`. The model has no thread, so it always returns 0 and the loader is running.
- Inotify.NotificationSource.AddWatch: the kernel returns the existing descriptor when a path names an inode that is already watched, for example a hard link to a watched file. The model hands out a fresh descriptor for every granted watch.
- Split.HotLoader.Init: the model does not track which descriptors are closed. After a -2, the closed inotify fd stays stored and is treated like any other value.
- TaskRegistry.Registry.HandleEvents: it requires every record's descriptor to have been handed out by the source. This rules out descriptors the model never created.
- SingleHeader.HotLoader.RestartStoppedTasks: it requires the loader to be running, because only the worker calls it.
- SingleHeader.HotLoader.HandleEvents: it requires the loader to be running, because only the worker calls it.
- Split.HotLoader.RegisterTask: the claim that the registry stays indexed covers only tasks that arrive unwatched. A task that already holds a descriptor is entered in the file maps whatever that descriptor is.

## Findings

| source | as written | input that shows it | evidently intended | confidence | as-written member | corrected member |
|---|---|---|---|---|---|---|
| src/hot_loader.cpp:83-89 | every `register_task` calls `epoll_ctl(ADD)` for the same inotify descriptor, and treats any failure as fatal for that registration | after init, register a task on one existing file (returns 0), then a task on a second existing file: `epoll_ctl` fails with EEXIST, the new watch is removed, and the call returns -4; the task stays in `_tasks` with descriptor -1, so the next sweep re-arms it and fires its on_reload anyway | the descriptor is already in the epoll instance, which is what the call wants, so EEXIST should count as success and the second registration should return 0 | not executed | Findings.SecondRegistrationRejected / Findings.RejectedTaskRearmedLater / Split.HotLoader.RegisterTask | Findings.BothRegistrationsAccepted / Split.HotLoader.RegisterTaskCorrected |
