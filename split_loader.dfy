/**
 * The split HotLoader (include/hot_loader.h with src/hot_loader.cpp): no
 * `_initialized` flag, register_task enters the task in the file maps before
 * creating its watch and adds the inotify descriptor to the epoll instance on
 * every registration, and unregister_task reports -1/-2 for a bad path and a
 * missing file.
 */
module Split {
  import opened Inotify
  import opened Tasks
  import opened TaskRegistry
  import opened Events

  class HotLoader {
    const registry: Registry
    var inotifyFd: int
    var epollFd: int
    var running: bool

    /** Without an init flag, only the registry's own consistency is kept. */
    ghost predicate Valid()
      reads this, registry, registry.source
    {
      registry.Valid()
    }

    constructor (source: NotificationSource)
      requires source.Valid()
      ensures Valid() && registry.Indexed() && fresh(registry) && registry.source == source
      ensures !running && inotifyFd == -1 && epollFd == -1
      ensures registry.tasks == map[] && registry.ownerships == map[] && registry.index == map[]
      ensures registry.reloads == [] && registry.deleted == multiset{}
    {
      registry := new Registry(source);
      inotifyFd, epollFd := -1, -1;
      running := false;
    }

    /**
     * init, with `inotifyResult` and `epollResult` what inotify_init1 and
     * epoll_create1 return: -1 when the inotify instance fails, -2 when the
     * epoll instance fails, 0 otherwise. Nothing guards a second call, and the
     * epoll registration is left to register_task.
     */
    method Init(inotifyResult: int, epollResult: int) returns (r: int)
      modifies this`inotifyFd, this`epollFd
      ensures inotifyFd == inotifyResult
      ensures inotifyResult < 0 ==> r == -1 && epollFd == old(epollFd)
      ensures inotifyResult >= 0 ==> epollFd == epollResult && (r == 0 <==> epollResult >= 0) && (r != 0 ==> r == -2)
    {
      inotifyFd := inotifyResult;
      if inotifyFd < 0 {
        return -1;
      }
      epollFd := epollResult;
      if epollFd < 0 {
        return -2;
      }
      return 0;
    }

    /**
     * run: 0, with the loader running. The worker thread is not modelled, so
     * a second call, which in the C++ code replaces a joinable thread and
     * terminates the process, is modelled as succeeding too.
     */
    method Run() returns (r: int)
      modifies this`running
      ensures r == 0 && running
    {
      running := true;
      return 0;
    }

    /**
     * The kernel calls of register_task: inotify_add_watch on `file`, then
     * epoll_ctl(ADD) of the inotify descriptor, removing the new watch again
     * when that fails. `r` is -3 when the watch is refused, -4 when the epoll
     * registration fails, 0 with the new descriptor `wd` otherwise. As written,
     * EEXIST is a failure like any other; `acceptExisting` selects the
     * corrected handling, where it counts as success.
     */
    method GrantWatch(file: string, acceptExisting: bool) returns (wd: int, r: int)
      requires registry.source.Valid()
      modifies registry.source
      ensures registry.source.Valid()
      ensures registry.source.files == old(registry.source.files) && registry.source.canonical == old(registry.source.canonical)
      ensures registry.source.nextWd == old(registry.source.nextWd) + (if r == 0 || r == -4 then 1 else 0)
      ensures registry.source.capacity == old(registry.source.capacity) - (if r == 0 then 1 else 0)
      ensures r == -3 <==> !old(registry.source.Admits(inotifyFd, file))
      ensures r == -4 <==> (old(registry.source.Admits(inotifyFd, file)) &&
        !(old(registry.source.EpollAccepts(epollFd, inotifyFd)) || (acceptExisting && epollFd >= 0)))
      ensures r == 0 <==> (old(registry.source.Admits(inotifyFd, file)) &&
        (old(registry.source.EpollAccepts(epollFd, inotifyFd)) || (acceptExisting && epollFd >= 0)))
      ensures !acceptExisting && old((epollFd, inotifyFd) in registry.source.interest) ==> r != 0
      ensures r != 0 ==>
        registry.source.watches == old(registry.source.watches) && registry.source.interest == old(registry.source.interest)
      ensures r == 0 ==>
        && wd == old(registry.source.nextWd)
        && registry.source.watches == old(registry.source.watches)[wd := Watch(file, WatchEventMask)]
        && registry.source.interest == old(registry.source.interest) + {(epollFd, inotifyFd)}
    {
      wd := registry.source.AddWatch(inotifyFd, file, WatchEventMask);
      if wd < 0 {
        return wd, -3;
      }
      var err := registry.source.EpollAdd(epollFd, inotifyFd);
      if err != 0 && !(acceptExisting && err == EEXIST) {
        registry.source.RemoveWatch(inotifyFd, wd);
        return wd, -4;
      }
      return wd, 0;
    }

    /**
     * The watch half of register_task, for a task already entered in the file
     * maps: on -3 or -4 the task keeps its descriptor and the index is
     * unchanged; on 0 the task is indexed under its fresh descriptor.
     */
    method WatchEnrolled(task: HotLoadTask, acceptExisting: bool) returns (r: int)
      requires registry.Valid()
      modifies registry`index, registry.source, task
      ensures registry.Valid() && (old(registry.Indexed()) ==> registry.Indexed())
      ensures registry.source.files == old(registry.source.files) && registry.source.canonical == old(registry.source.canonical)
      ensures registry.source.nextWd == old(registry.source.nextWd) + (if r == 0 || r == -4 then 1 else 0)
      ensures registry.source.capacity == old(registry.source.capacity) - (if r == 0 then 1 else 0)
      ensures r == -3 <==> !old(registry.source.Admits(inotifyFd, task.file))
      ensures r == -4 <==> (old(registry.source.Admits(inotifyFd, task.file)) &&
        !(old(registry.source.EpollAccepts(epollFd, inotifyFd)) || (acceptExisting && epollFd >= 0)))
      ensures r == 0 <==> (old(registry.source.Admits(inotifyFd, task.file)) &&
        (old(registry.source.EpollAccepts(epollFd, inotifyFd)) || (acceptExisting && epollFd >= 0)))
      ensures !acceptExisting && old((epollFd, inotifyFd) in registry.source.interest) ==> r != 0
      ensures r != 0 ==>
        && task.wd == old(task.wd) && registry.index == old(registry.index)
        && registry.source.watches == old(registry.source.watches) && registry.source.interest == old(registry.source.interest)
      ensures r == 0 ==>
        && task.wd == old(registry.source.nextWd)
        && registry.index == old(registry.index)[task.wd := task]
        && registry.source.watches == old(registry.source.watches)[task.wd := Watch(task.file, WatchEventMask)]
        && registry.source.interest == old(registry.source.interest) + {(epollFd, inotifyFd)}
    {
      var wd;
      wd, r := GrantWatch(task.file, acceptExisting);
      if r == 0 {
        registry.IndexTask(task, wd);
      }
    }

    /**
     * register_task as written: -1 for a null task and -2 for a file already
     * registered, with no change. Otherwise the task is entered in both file
     * maps first, and stays there whatever the watch half then returns.
     * Once one registration has succeeded the inotify descriptor is in the
     * epoll instance, the epoll registration fails with EEXIST, and no later
     * registration can return 0.
     */
    method RegisterTask(task: HotLoadTask?, ownership: Ownership) returns (r: int)
      requires Valid()
      requires task != null ==> task !in registry.deleted
      modifies registry`tasks, registry`ownerships, registry`index, registry.source, task
      ensures Valid()
      ensures registry.source.files == old(registry.source.files) && registry.source.canonical == old(registry.source.canonical)
      ensures registry.source.capacity == old(registry.source.capacity) - (if r == 0 then 1 else 0)
      ensures task == null ==> r == -1 && unchanged(registry, registry.source)
      ensures task != null && task.file in old(registry.tasks) ==> r == -2 && unchanged(registry, registry.source, task)
      ensures task != null && task.file !in old(registry.tasks) ==>
        && registry.tasks == old(registry.tasks)[task.file := task]
        && registry.ownerships == old(registry.ownerships)[task.file := ownership]
        && (r == -3 <==> !old(registry.source.Admits(inotifyFd, task.file)))
        && (r == -4 <==> old(registry.source.Admits(inotifyFd, task.file)) && !old(registry.source.EpollAccepts(epollFd, inotifyFd)))
        && (r == 0 <==> old(registry.source.Admits(inotifyFd, task.file)) && old(registry.source.EpollAccepts(epollFd, inotifyFd)))
        && (r != 0 ==> task.wd == old(task.wd) && registry.index == old(registry.index))
        && (r == 0 ==> task.wd == old(registry.source.nextWd) && registry.index == old(registry.index)[task.wd := task])
        && (r == 0 ==>
              && registry.source.watches == old(registry.source.watches)[task.wd := Watch(task.file, WatchEventMask)]
              && registry.source.interest == old(registry.source.interest) + {(epollFd, inotifyFd)})
      ensures registry.source.nextWd == old(registry.source.nextWd) + (if r == 0 || r == -4 then 1 else 0)
      ensures r != 0 ==>
        registry.source.watches == old(registry.source.watches) && registry.source.interest == old(registry.source.interest)
      ensures task != null && old((epollFd, inotifyFd) in registry.source.interest) ==> r != 0
      ensures old(registry.Indexed()) && (task != null ==> old(task.wd) < 0) ==> registry.Indexed()
    {
      if task == null {
        return -1;
      }
      if task.file in registry.tasks {
        return -2;
      }
      registry.Enroll(task, ownership);
      r := WatchEnrolled(task, false);
    }

    /**
     * register_task with the epoll registration corrected: EEXIST means the
     * inotify descriptor is already in the epoll instance, which is what the
     * call wants, so it counts as success. Then every registration whose watch
     * is granted succeeds as long as the epoll instance exists.
     */
    method RegisterTaskCorrected(task: HotLoadTask?, ownership: Ownership) returns (r: int)
      requires Valid()
      requires task != null ==> task !in registry.deleted
      modifies registry`tasks, registry`ownerships, registry`index, registry.source, task
      ensures Valid()
      ensures registry.source.files == old(registry.source.files) && registry.source.canonical == old(registry.source.canonical)
      ensures registry.source.capacity == old(registry.source.capacity) - (if r == 0 then 1 else 0)
      ensures task == null ==> r == -1 && unchanged(registry, registry.source)
      ensures task != null && task.file in old(registry.tasks) ==> r == -2 && unchanged(registry, registry.source, task)
      ensures task != null && task.file !in old(registry.tasks) ==>
        && registry.tasks == old(registry.tasks)[task.file := task]
        && registry.ownerships == old(registry.ownerships)[task.file := ownership]
        && (r == -3 <==> !old(registry.source.Admits(inotifyFd, task.file)))
        && (r == -4 <==> old(registry.source.Admits(inotifyFd, task.file)) && epollFd < 0)
        && (r == 0 <==> old(registry.source.Admits(inotifyFd, task.file)) && epollFd >= 0)
        && (r != 0 ==> task.wd == old(task.wd) && registry.index == old(registry.index))
        && (r == 0 ==> task.wd == old(registry.source.nextWd) && registry.index == old(registry.index)[task.wd := task])
        && (r == 0 ==>
              && registry.source.watches == old(registry.source.watches)[task.wd := Watch(task.file, WatchEventMask)]
              && registry.source.interest == old(registry.source.interest) + {(epollFd, inotifyFd)})
      ensures registry.source.nextWd == old(registry.source.nextWd) + (if r == 0 || r == -4 then 1 else 0)
      ensures r != 0 ==>
        registry.source.watches == old(registry.source.watches) && registry.source.interest == old(registry.source.interest)
      ensures old(registry.Indexed()) && (task != null ==> old(task.wd) < 0) ==> registry.Indexed()
    {
      if task == null {
        return -1;
      }
      if task.file in registry.tasks {
        return -2;
      }
      registry.Enroll(task, ownership);
      r := WatchEnrolled(task, true);
    }

    /**
     * The outcome of unregister_task(path): -1 when the path does not
     * normalize to a regular file, -2 when its file is not registered, each
     * without any change; otherwise 0, and the task registered under the
     * normalized path is unregistered, its watch is released, and every
     * other task keeps its descriptor.
     */
    twostate predicate UnregisterOutcome(path: string, r: int)
      reads *
    {
      var key := old(registry.source.Normalize(path));
      if key == "" then r == -1 && Untouched()
      else if key !in old(registry.tasks) then r == -2 && Untouched()
      else
        && r == 0 && registry.Unregistered(inotifyFd, key, old(registry.tasks[key]))
        && forall u :: u in old(registry.tasks.Values) && u != old(registry.tasks[key]) ==> u.wd == old(u.wd)
    }

    /** Neither the registry, the source nor any registered task changed. */
    twostate predicate Untouched()
      reads *
    {
      && unchanged(registry, registry.source)
      && forall t :: t in old(registry.tasks.Values) ==> t.wd == old(t.wd)
    }

    /** unregister_task(const std::string&). */
    method UnregisterPath(path: string) returns (r: int)
      requires Valid()
      modifies registry, registry.source, registry.tasks.Values
      ensures Valid()
      ensures old(registry.Indexed()) ==> registry.Indexed()
      ensures UnregisterOutcome(path, r)
    {
      var key := registry.source.Normalize(path);
      if key == "" {
        return -1;
      }
      if key !in registry.tasks {
        return -2;
      }
      registry.Remove(inotifyFd, key);
      return 0;
    }

    /**
     * unregister_task(HotLoadTask*): -1 for a null task, and otherwise the
     * same result and effect as unregistering the task's own file.
     */
    method UnregisterTask(task: HotLoadTask?) returns (r: int)
      requires Valid()
      modifies registry, registry.source, registry.tasks.Values
      ensures Valid()
      ensures old(registry.Indexed()) ==> registry.Indexed()
      ensures task == null ==> r == -1 && Untouched()
      ensures task != null ==> UnregisterOutcome(task.file, r)
    {
      if task == null {
        return -1;
      }
      r := UnregisterPath(task.file);
    }

    /**
     * restart_stopped_tasks, run by the worker at the top of every iteration:
     * exactly the tasks `rearmed` change descriptor; each was unwatched with
     * an existing file, now holds a fresh indexed descriptor and fired
     * on_reload once. An unwatched task whose file exists stays unwatched only
     * when the watch budget ran out.
     */
    method RestartStoppedTasks() returns (ghost rearmed: set<HotLoadTask>)
      requires Valid()
      modifies registry`index, registry`reloads, registry.source, registry.tasks.Values
      ensures Valid()
      ensures old(registry.Indexed()) ==> registry.Indexed()
      ensures registry.source.files == old(registry.source.files)
      ensures registry.source.canonical == old(registry.source.canonical)
      ensures registry.source.interest == old(registry.source.interest)
      ensures registry.source.nextWd == old(registry.source.nextWd) + |rearmed|
      ensures forall w :: w in old(registry.source.watches) ==>
        w in registry.source.watches && registry.source.watches[w] == old(registry.source.watches)[w]
      ensures forall t :: t in rearmed ==>
        t.wd in registry.source.watches && registry.source.watches[t.wd] == Watch(t.file, WatchEventMask)
      ensures forall w :: w in registry.source.watches && w !in old(registry.source.watches) ==>
        w in registry.index && registry.index[w] in rearmed
      ensures rearmed <= registry.tasks.Values
      ensures forall t :: t in registry.tasks.Values ==> (t in rearmed <==> t.wd != old(t.wd))
      ensures forall t :: t in rearmed ==>
        && old(t.wd) < 0 && t.file in registry.source.files && old(registry.source.nextWd) <= t.wd
        && t.wd in registry.index && registry.index[t.wd] == t
      ensures forall w :: w in old(registry.index) ==> w in registry.index && registry.index[w] == old(registry.index)[w]
      ensures forall w :: w in registry.index && w !in old(registry.index) ==>
        registry.index[w] in rearmed && registry.index[w].wd == w
      ensures |old(registry.reloads)| <= |registry.reloads| && registry.reloads[..|old(registry.reloads)|] == old(registry.reloads)
      ensures multiset(registry.reloads[|old(registry.reloads)|..]) == multiset(rearmed)
      ensures registry.source.capacity == old(registry.source.capacity) - |rearmed|
      ensures forall t ::
        (t in registry.tasks.Values && old(t.wd) < 0 && t.file in old(registry.source.files) &&
         inotifyFd >= 0 && t !in rearmed) ==> registry.source.capacity == 0
    {
      rearmed := registry.RestartStoppedTasks(inotifyFd);
    }

    /**
     * The coalescing and dispatch half of one worker iteration, for the raw
     * records read from the inotify descriptor in one wake-up: each known
     * descriptor the records mention is dispatched exactly once with its
     * coalesced mask (`fired[i]` is what it fired, `armed[i]` the descriptor
     * its rewatch obtained), and the index gains exactly those descriptors.
     * A task no invalidated watch routed to rewatch_task keeps its
     * descriptor; any other ends with the one its last rewatch obtained.
     */
    method HandleEvents(records: seq<Record>)
      returns (ghost order: seq<int>, ghost fired: seq<seq<HotLoadTask>>, ghost armed: seq<int>)
      requires Valid()
      requires forall i :: 0 <= i < |records| ==> records[i].wd < registry.source.nextWd
      modifies registry`index, registry`reloads, registry.source, registry.index.Values
      ensures Valid()
      ensures old(registry.Indexed()) ==> registry.Indexed()
      ensures Distinct(order)
      ensures forall w :: w in order <==> Mentions(records, w) && w in old(registry.index)
      ensures |fired| == |order| && |armed| == |order|
      ensures forall i :: 0 <= i < |order| ==>
        && order[i] in old(registry.index)
        && Handled(fired[i], armed[i], MaskOf(Coalesce(records), order[i]),
                   old(registry.index)[order[i]], old(registry.source.nextWd))
      ensures registry.reloads == old(registry.reloads) + Flatten(fired)
      ensures |registry.reloads| - |old(registry.reloads)| <= |order|
      ensures forall w :: w in registry.index <==>
        w in old(registry.index) || (old(registry.source.nextWd) <= w && w in armed)
      ensures forall w :: w in old(registry.index) ==> w in registry.index && registry.index[w] == old(registry.index)[w]
      ensures forall i :: 0 <= i < |order| && old(registry.source.nextWd) <= armed[i] ==>
        armed[i] in registry.index && order[i] in old(registry.index) && registry.index[armed[i]] == old(registry.index)[order[i]]
      ensures registry.source.files == old(registry.source.files)
      ensures registry.source.canonical == old(registry.source.canonical)
      ensures registry.source.interest == old(registry.source.interest)
      ensures forall t :: t in old(registry.index.Values) && Rewatchless(Coalesce(records), old(registry.index), order, t) ==>
        t.wd == old(t.wd)
      ensures forall i ::
        (&& 0 <= i < |order| && Rewatches(Coalesce(records), old(registry.index), order, i, old(registry.index)[order[i]])
         && forall j :: i < j < |order| ==>
              !Rewatches(Coalesce(records), old(registry.index), order, j, old(registry.index)[order[i]])) ==>
        old(registry.index)[order[i]].wd == armed[i]
      ensures registry.source.nextWd == old(registry.source.nextWd) + Granted(armed, old(registry.source.nextWd))
      ensures registry.source.capacity + |registry.source.watches| == old(registry.source.capacity + |registry.source.watches|)
      ensures forall w ::
        (&& w in old(registry.source.watches)
         && forall t :: t in old(registry.index.Values) && old(t.wd) == w ==>
              Rewatchless(Coalesce(records), old(registry.index), order, t)) ==>
        w in registry.source.watches && registry.source.watches[w] == old(registry.source.watches)[w]
      ensures forall t ::
        (&& t in old(registry.index.Values) && old(t.wd) in old(registry.source.watches) && inotifyFd >= 0
         && !Rewatchless(Coalesce(records), old(registry.index), order, t)) ==>
        old(t.wd) !in registry.source.watches
      ensures forall w :: w in registry.source.watches && w !in old(registry.source.watches) ==>
        && old(registry.source.nextWd) <= w && w in armed && w in registry.index
        && registry.source.watches[w] == Watch(registry.index[w].file, WatchEventMask)
    {
      order, fired, armed := registry.HandleEvents(inotifyFd, records);
    }
  }
}
