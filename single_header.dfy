/**
 * The single-header HotLoader (hot_loader.h): an `_initialized` flag guards
 * every registry operation, register_task creates the watch before touching
 * any map and so rolls back cleanly, and unregister_all_tasks tears the whole
 * registry down. The inotify and epoll descriptors are whatever the kernel
 * handed out; init takes them as parameters.
 */
module SingleHeader {
  import opened Inotify
  import opened Tasks
  import opened TaskRegistry
  import opened Events

  class HotLoader {
    const registry: Registry
    var inotifyFd: int
    var epollFd: int
    var initialized: bool
    var running: bool

    /**
     * The registry is consistent and indexes every watched task; the loader
     * only runs once initialized, an initialized loader holds both
     * descriptors, and nothing is registered before init.
     */
    ghost predicate Valid()
      reads this, registry, registry.source, registry.tasks.Values
    {
      && registry.Valid() && registry.Indexed()
      && (running ==> initialized)
      && (initialized ==> inotifyFd >= 0 && epollFd >= 0)
      && (!initialized ==> registry.tasks == map[] && registry.ownerships == map[] && registry.index == map[])
    }

    constructor (source: NotificationSource)
      requires source.Valid()
      ensures Valid() && fresh(registry) && registry.source == source
      ensures !initialized && !running && inotifyFd == -1 && epollFd == -1
      ensures registry.reloads == [] && registry.deleted == multiset{}
    {
      registry := new Registry(source);
      inotifyFd, epollFd := -1, -1;
      initialized, running := false, false;
    }

    /** close_file_descriptors: every descriptor that is open is closed and reset to -1. */
    method CloseFileDescriptors()
      modifies this`inotifyFd, this`epollFd
      ensures inotifyFd == (if old(inotifyFd) >= 0 then -1 else old(inotifyFd))
      ensures epollFd == (if old(epollFd) >= 0 then -1 else old(epollFd))
    {
      if inotifyFd >= 0 {
        inotifyFd := -1;
      }
      if epollFd >= 0 {
        epollFd := -1;
      }
    }

    /**
     * init, with `inotifyResult` and `epollResult` what inotify_init1 and
     * epoll_create1 return: 0 without any change when already initialized;
     * -1, -2 or -3 when the inotify instance, the epoll instance or the
     * registration of one with the other fails, leaving the loader
     * uninitialized; 0 and initialized otherwise.
     */
    method Init(inotifyResult: int, epollResult: int) returns (r: int)
      requires Valid()
      modifies this`inotifyFd, this`epollFd, this`initialized, registry.source
      ensures Valid()
      ensures registry.source.files == old(registry.source.files) && registry.source.canonical == old(registry.source.canonical)
      ensures registry.source.watches == old(registry.source.watches)
      ensures registry.source.nextWd == old(registry.source.nextWd) && registry.source.capacity == old(registry.source.capacity)
      ensures old(initialized) ==> r == 0 && unchanged(this, registry.source)
      ensures !old(initialized) && inotifyResult < 0 ==>
        && r == -1 && !initialized && inotifyFd == inotifyResult && epollFd == old(epollFd)
        && unchanged(registry.source)
      ensures !old(initialized) && inotifyResult >= 0 && epollResult < 0 ==>
        r == -2 && !initialized && inotifyFd == -1 && epollFd == epollResult && unchanged(registry.source)
      ensures !old(initialized) && inotifyResult >= 0 && epollResult >= 0 ==>
        if old(registry.source.EpollAccepts(epollResult, inotifyResult)) then
          && r == 0 && initialized && inotifyFd == inotifyResult && epollFd == epollResult
          && registry.source.interest == old(registry.source.interest) + {(epollResult, inotifyResult)}
        else
          && r == -3 && !initialized && inotifyFd == -1 && epollFd == -1
          && registry.source.interest == old(registry.source.interest)
    {
      if initialized {
        return 0;
      }
      inotifyFd := inotifyResult;
      if inotifyFd < 0 {
        return -1;
      }
      epollFd := epollResult;
      if epollFd < 0 {
        CloseFileDescriptors();
        return -2;
      }
      var err := registry.source.EpollAdd(epollFd, inotifyFd);
      if err != 0 {
        CloseFileDescriptors();
        return -3;
      }
      initialized := true;
      return 0;
    }

    /**
     * register_task: -1 for a null task and -2 before init; -3 when the task's
     * file is already registered and -4 when inotify refuses the watch, in
     * both cases with no change at all; otherwise 0, with the task watched
     * under a fresh descriptor and entered in all three maps.
     */
    method RegisterTask(task: HotLoadTask?, ownership: Ownership) returns (r: int)
      requires Valid()
      requires task != null ==> task !in registry.deleted
      modifies registry`tasks, registry`ownerships, registry`index, registry.source, task
      ensures Valid()
      ensures task == null ==> r == -1 && unchanged(registry, registry.source)
      ensures task != null && !initialized ==> r == -2 && unchanged(registry, registry.source, task)
      ensures task != null && initialized && task.file in old(registry.tasks) ==>
        r == -3 && unchanged(registry, registry.source, task)
      ensures task != null && initialized && task.file !in old(registry.tasks) ==>
        if old(registry.source.Admits(inotifyFd, task.file)) then
          && r == 0 && task.wd == old(registry.source.nextWd)
          && registry.tasks == old(registry.tasks)[task.file := task]
          && registry.ownerships == old(registry.ownerships)[task.file := ownership]
          && registry.index == old(registry.index)[task.wd := task]
          && registry.source.watches == old(registry.source.watches)[task.wd := Watch(task.file, WatchEventMask)]
          && registry.source.nextWd == old(registry.source.nextWd) + 1
          && registry.source.capacity == old(registry.source.capacity) - 1
          && registry.source.files == old(registry.source.files)
          && registry.source.canonical == old(registry.source.canonical)
          && registry.source.interest == old(registry.source.interest)
        else
          r == -4 && unchanged(registry, registry.source, task)
    {
      if task == null {
        return -1;
      }
      if !initialized {
        return -2;
      }
      var file := task.file;
      if file in registry.tasks {
        return -3;
      }
      var wd := registry.source.AddWatch(inotifyFd, file, WatchEventMask);
      if wd < 0 {
        return -4;
      }
      registry.IndexTask(task, wd);
      registry.Enroll(task, ownership);
      return 0;
    }

    /**
     * The outcome of unregister_task(path): -2 before init, -3 when the path
     * does not normalize to a regular file, -4 when its file is not
     * registered, each without any change; otherwise 0, and the task
     * registered under the normalized path is unregistered, its watch is
     * released, and every other task keeps its descriptor.
     */
    twostate predicate UnregisterOutcome(path: string, r: int)
      reads *
    {
      var key := old(registry.source.Normalize(path));
      if !old(initialized) then r == -2 && Untouched()
      else if key == "" then r == -3 && Untouched()
      else if key !in old(registry.tasks) then r == -4 && Untouched()
      else
        && r == 0 && registry.Unregistered(inotifyFd, key, old(registry.tasks[key]))
        && forall u :: u in old(registry.tasks.Values) && u != old(registry.tasks[key]) ==> u.wd == old(u.wd)
    }

    /** Neither the registry, the source nor any registered task changed. */
    twostate predicate Untouched()
      reads *
    {
      && unchanged(registry, registry.source)
      && forall t :: t in old(registry.tasks.Values) ==> t.wd == old(t.wd)
    }

    /** unregister_task(const std::string&). */
    method UnregisterPath(path: string) returns (r: int)
      requires Valid()
      modifies registry, registry.source, registry.tasks.Values
      ensures Valid()
      ensures UnregisterOutcome(path, r)
    {
      if !initialized {
        return -2;
      }
      var key := registry.source.Normalize(path);
      if key == "" {
        return -3;
      }
      if key !in registry.tasks {
        return -4;
      }
      registry.Remove(inotifyFd, key);
      return 0;
    }

    /**
     * unregister_task(HotLoadTask*): -1 for a null task, and otherwise the
     * same result and effect as unregistering the task's own file.
     */
    method UnregisterTask(task: HotLoadTask?) returns (r: int)
      requires Valid()
      modifies registry, registry.source, registry.tasks.Values
      ensures Valid()
      ensures task == null ==> r == -1 && Untouched()
      ensures task != null ==> UnregisterOutcome(task.file, r)
    {
      if task == null {
        return -1;
      }
      r := UnregisterPath(task.file);
    }

    /**
     * unregister_all_tasks: -1 before init with no change; otherwise 0, all
     * three maps are empty and each task the loader owned is deleted exactly
     * once. The source releases the watch of every task that was registered
     * and keeps every other watch; the tasks keep their descriptors, and a
     * call on an empty registry deletes nothing.
     */
    method UnregisterAllTasks() returns (r: int)
      requires Valid()
      modifies registry`tasks, registry`ownerships, registry`index, registry`deleted, registry.source
      ensures Valid()
      ensures !initialized ==> r == -1 && unchanged(registry, registry.source)
      ensures initialized ==>
        && r == 0
        && registry.tasks == map[] && registry.ownerships == map[] && registry.index == map[]
        && registry.deleted == old(registry.deleted)
             + multiset(OwnedAmong(old(registry.tasks), old(registry.ownerships), old(registry.tasks.Keys)))
      ensures old(registry.tasks) == map[] ==> registry.deleted == old(registry.deleted)
      ensures registry.reloads == old(registry.reloads)
      ensures registry.source.files == old(registry.source.files)
      ensures registry.source.canonical == old(registry.source.canonical)
      ensures registry.source.interest == old(registry.source.interest)
      ensures registry.source.nextWd == old(registry.source.nextWd)
      ensures inotifyFd >= 0 ==> forall f :: f in old(registry.tasks) ==> old(registry.tasks)[f].wd !in registry.source.watches
      ensures forall w :: w in registry.source.watches ==>
        w in old(registry.source.watches) && registry.source.watches[w] == old(registry.source.watches)[w]
      ensures forall w ::
        (w in old(registry.source.watches) && (inotifyFd < 0 || forall f :: f in old(registry.tasks) ==> old(registry.tasks)[f].wd != w)) ==>
        w in registry.source.watches
      ensures registry.source.capacity + |registry.source.watches| == old(registry.source.capacity + |registry.source.watches|)
    {
      if !initialized {
        return -1;
      }
      registry.Clear(inotifyFd);
      return 0;
    }

    /**
     * run: -1 when already running, -2 before init, and otherwise 0 with the
     * loader running (the worker thread is not modelled).
     */
    method Run() returns (r: int)
      requires Valid()
      modifies this`running
      ensures Valid()
      ensures old(running) ==> r == -1 && running
      ensures !old(running) && !initialized ==> r == -2 && !running
      ensures !old(running) && initialized ==> r == 0 && running
    {
      if running {
        return -1;
      }
      if !initialized {
        return -2;
      }
      running := true;
      return 0;
    }

    /**
     * stop: the loader stops running and every task is unregistered, with the
     * same effect on the source as unregister_all_tasks.
     */
    method Stop()
      requires Valid()
      modifies this`running, registry`tasks, registry`ownerships, registry`index, registry`deleted, registry.source
      ensures Valid() && !running
      ensures registry.tasks == map[] && registry.ownerships == map[] && registry.index == map[]
      ensures registry.deleted == old(registry.deleted)
        + multiset(OwnedAmong(old(registry.tasks), old(registry.ownerships), old(registry.tasks.Keys)))
      ensures registry.source.files == old(registry.source.files)
      ensures registry.source.canonical == old(registry.source.canonical)
      ensures registry.source.interest == old(registry.source.interest)
      ensures registry.source.nextWd == old(registry.source.nextWd)
      ensures inotifyFd >= 0 ==> forall f :: f in old(registry.tasks) ==> old(registry.tasks)[f].wd !in registry.source.watches
      ensures forall w :: w in registry.source.watches ==>
        w in old(registry.source.watches) && registry.source.watches[w] == old(registry.source.watches)[w]
      ensures forall w ::
        (w in old(registry.source.watches) && (inotifyFd < 0 || forall f :: f in old(registry.tasks) ==> old(registry.tasks)[f].wd != w)) ==>
        w in registry.source.watches
      ensures registry.source.capacity + |registry.source.watches| == old(registry.source.capacity + |registry.source.watches|)
    {
      running := false;
      var _ := UnregisterAllTasks();
    }

    /**
     * restart_stopped_tasks, run by the worker at the top of every iteration:
     * exactly the tasks `rearmed` change descriptor; each was unwatched with
     * an existing file, now holds a fresh indexed descriptor and fired
     * on_reload once. An unwatched task whose file exists stays unwatched only
     * when the watch budget ran out.
     */
    method RestartStoppedTasks() returns (ghost rearmed: set<HotLoadTask>)
      requires Valid() && running
      modifies registry`index, registry`reloads, registry.source, registry.tasks.Values
      ensures Valid()
      ensures registry.source.files == old(registry.source.files)
      ensures registry.source.canonical == old(registry.source.canonical)
      ensures registry.source.interest == old(registry.source.interest)
      ensures registry.source.nextWd == old(registry.source.nextWd) + |rearmed|
      ensures forall w :: w in old(registry.source.watches) ==>
        w in registry.source.watches && registry.source.watches[w] == old(registry.source.watches)[w]
      ensures forall t :: t in rearmed ==>
        t.wd in registry.source.watches && registry.source.watches[t.wd] == Watch(t.file, WatchEventMask)
      ensures forall w :: w in registry.source.watches && w !in old(registry.source.watches) ==>
        w in registry.index && registry.index[w] in rearmed
      ensures rearmed <= registry.tasks.Values
      ensures forall t :: t in registry.tasks.Values ==> (t in rearmed <==> t.wd != old(t.wd))
      ensures forall t :: t in rearmed ==>
        && old(t.wd) < 0 && t.file in registry.source.files && old(registry.source.nextWd) <= t.wd
        && t.wd in registry.index && registry.index[t.wd] == t
      ensures forall w :: w in old(registry.index) ==> w in registry.index && registry.index[w] == old(registry.index)[w]
      ensures forall w :: w in registry.index && w !in old(registry.index) ==>
        registry.index[w] in rearmed && registry.index[w].wd == w
      ensures |old(registry.reloads)| <= |registry.reloads| && registry.reloads[..|old(registry.reloads)|] == old(registry.reloads)
      ensures multiset(registry.reloads[|old(registry.reloads)|..]) == multiset(rearmed)
      ensures registry.source.capacity == old(registry.source.capacity) - |rearmed|
      ensures forall t ::
        (t in registry.tasks.Values && old(t.wd) < 0 && t.file in old(registry.source.files) &&
         inotifyFd >= 0 && t !in rearmed) ==> registry.source.capacity == 0
    {
      rearmed := registry.RestartStoppedTasks(inotifyFd);
    }

    /**
     * The coalescing and dispatch half of one worker iteration, for the raw
     * records read from the inotify descriptor in one wake-up: each known
     * descriptor the records mention is dispatched exactly once with its
     * coalesced mask (`fired[i]` is what it fired, `armed[i]` the descriptor
     * its rewatch obtained), and the index gains exactly those descriptors.
     * A task no invalidated watch routed to rewatch_task keeps its
     * descriptor; any other ends with the one its last rewatch obtained.
     */
    method HandleEvents(records: seq<Record>)
      returns (ghost order: seq<int>, ghost fired: seq<seq<HotLoadTask>>, ghost armed: seq<int>)
      requires Valid() && running
      requires forall i :: 0 <= i < |records| ==> records[i].wd < registry.source.nextWd
      modifies registry`index, registry`reloads, registry.source, registry.index.Values
      ensures Valid()
      ensures Distinct(order)
      ensures forall w :: w in order <==> Mentions(records, w) && w in old(registry.index)
      ensures |fired| == |order| && |armed| == |order|
      ensures forall i :: 0 <= i < |order| ==>
        && order[i] in old(registry.index)
        && Handled(fired[i], armed[i], MaskOf(Coalesce(records), order[i]),
                   old(registry.index)[order[i]], old(registry.source.nextWd))
      ensures registry.reloads == old(registry.reloads) + Flatten(fired)
      ensures |registry.reloads| - |old(registry.reloads)| <= |order|
      ensures forall w :: w in registry.index <==>
        w in old(registry.index) || (old(registry.source.nextWd) <= w && w in armed)
      ensures forall w :: w in old(registry.index) ==> w in registry.index && registry.index[w] == old(registry.index)[w]
      ensures forall i :: 0 <= i < |order| && old(registry.source.nextWd) <= armed[i] ==>
        armed[i] in registry.index && order[i] in old(registry.index) && registry.index[armed[i]] == old(registry.index)[order[i]]
      ensures registry.source.files == old(registry.source.files)
      ensures registry.source.canonical == old(registry.source.canonical)
      ensures registry.source.interest == old(registry.source.interest)
      ensures forall t :: t in old(registry.index.Values) && Rewatchless(Coalesce(records), old(registry.index), order, t) ==>
        t.wd == old(t.wd)
      ensures forall i ::
        (&& 0 <= i < |order| && Rewatches(Coalesce(records), old(registry.index), order, i, old(registry.index)[order[i]])
         && forall j :: i < j < |order| ==>
              !Rewatches(Coalesce(records), old(registry.index), order, j, old(registry.index)[order[i]])) ==>
        old(registry.index)[order[i]].wd == armed[i]
      ensures registry.source.nextWd == old(registry.source.nextWd) + Granted(armed, old(registry.source.nextWd))
      ensures registry.source.capacity + |registry.source.watches| == old(registry.source.capacity + |registry.source.watches|)
      ensures forall w ::
        (&& w in old(registry.source.watches)
         && forall t :: t in old(registry.index.Values) && old(t.wd) == w ==>
              Rewatchless(Coalesce(records), old(registry.index), order, t)) ==>
        w in registry.source.watches && registry.source.watches[w] == old(registry.source.watches)[w]
      ensures forall t ::
        (&& t in old(registry.index.Values) && old(t.wd) in old(registry.source.watches) && inotifyFd >= 0
         && !Rewatchless(Coalesce(records), old(registry.index), order, t)) ==>
        old(t.wd) !in registry.source.watches
      ensures forall w :: w in registry.source.watches && w !in old(registry.source.watches) ==>
        && old(registry.source.nextWd) <= w && w in armed && w in registry.index
        && registry.source.watches[w] == Watch(registry.index[w].file, WatchEventMask)
    {
      order, fired, armed := registry.HandleEvents(inotifyFd, records);
    }
  }
}
