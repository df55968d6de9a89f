/**
 * The split register_task adds the inotify descriptor to the epoll instance
 * on every registration. From the second registration on that descriptor is
 * already there, epoll_ctl fails with EEXIST, and the registration reports
 * -4 although its watch was granted. Two tasks on two existing files show it.
 */
module Findings {
  import opened Inotify
  import opened Tasks
  import opened TaskRegistry
  import Split

  /** A source with two existing files, each its own normal form, and room for eight watches. */
  method TwoFiles() returns (source: NotificationSource)
    ensures fresh(source) && source.Valid()
    ensures source.files == {"/a", "/b"} && source.canonical == map["/a" := "/a", "/b" := "/b"]
    ensures source.capacity == 8 && source.interest == {}
  {
    source := new NotificationSource({"/a", "/b"}, map["/a" := "/a", "/b" := "/b"], 8);
  }

  /**
   * The state both demonstrations start from: an initialized split loader
   * with descriptors 3 and 4 and nothing registered, over a source that has
   * both files, room for watches and an empty epoll interest list, and two
   * distinct unwatched tasks on the two files.
   */
  ghost predicate Ready(loader: Split.HotLoader, a: HotLoadTask, b: HotLoadTask)
    reads loader, loader.registry, loader.registry.source, a, b
  {
    && loader.Valid() && loader.inotifyFd == 3 && loader.epollFd == 4
    && loader.registry.tasks == map[] && loader.registry.deleted == multiset{}
    && "/a" in loader.registry.source.files && "/b" in loader.registry.source.files
    && loader.registry.source.capacity == 8 && loader.registry.source.interest == {}
    && a.file == "/a" && b.file == "/b" && a.wd == -1 && b.wd == -1
  }

  /** Builds the loader and the two tasks, and initializes the loader. */
  method Setup() returns (loader: Split.HotLoader, a: HotLoadTask, b: HotLoadTask)
    ensures fresh(loader) && fresh(loader.registry) && fresh(loader.registry.source) && fresh(a) && fresh(b)
    ensures Ready(loader, a, b)
  {
    var source := TwoFiles();
    loader := new Split.HotLoader(source);
    var _ := loader.Init(3, 4);
    a := new HotLoadTask("/a", source);
    b := new HotLoadTask("/b", source);
  }

  /** As written: the first registration succeeds and the second is refused with -4. */
  method SecondRegistrationRejected() returns (first: int, second: int)
    ensures first == 0 && second == -4
  {
    var loader, a, b := Setup();
    first := loader.RegisterTask(a, OwnTask);
    second := loader.RegisterTask(b, OwnTask);
  }

  /** Corrected: with EEXIST taken as success, both registrations succeed. */
  method BothRegistrationsAccepted() returns (first: int, second: int)
    ensures first == 0 && second == 0
  {
    var loader, a, b := Setup();
    first := loader.RegisterTaskCorrected(a, OwnTask);
    second := loader.RegisterTaskCorrected(b, OwnTask);
  }

  /**
   * As written, the task refused with -4 stays in the file maps with
   * descriptor -1, so the worker's next sweep re-arms it: it ends up watched
   * under a fresh descriptor and its on_reload fires, although its caller was
   * told the registration failed.
   */
  method RejectedTaskRearmedLater() returns (second: int, wd: int)
    ensures second == -4 && wd >= 0
  {
    var loader, a, b := Setup();
    var first := loader.RegisterTask(a, OwnTask);
    assert first == 0 && a.wd >= 1 && loader.registry.source.capacity == 7;
    second := loader.RegisterTask(b, OwnTask);
    assert second == -4 && b.wd == -1 && loader.registry.source.capacity == 7;
    SweepAfterRejection(loader, a, b);
    wd := b.wd;
  }

  /**
   * The sweep after the refused registration: the only unwatched registered
   * task is `b`, whose file exists and for which the budget still has room,
   * so the sweep re-arms it.
   */
  method SweepAfterRejection(loader: Split.HotLoader, a: HotLoadTask, b: HotLoadTask)
    requires loader.Valid() && loader.inotifyFd == 3
    requires loader.registry.tasks == map["/a" := a, "/b" := b]
    requires a.wd >= 1 && b.wd == -1 && b.file in loader.registry.source.files
    requires loader.registry.source.capacity == 7
    modifies loader.registry`index, loader.registry`reloads, loader.registry.source, loader.registry.tasks.Values
    ensures b.wd >= 1
    ensures |old(loader.registry.reloads)| <= |loader.registry.reloads|
    ensures loader.registry.reloads[|old(loader.registry.reloads)|..] == [b]
  {
    assert loader.registry.tasks.Values == {a, b} by {
      assert loader.registry.tasks["/a"] == a && loader.registry.tasks["/b"] == b;
    }
    ghost var swept := loader.RestartStoppedTasks();
    assert swept == {b};
    assert multiset(loader.registry.reloads[|old(loader.registry.reloads)|..]) == multiset{b};
  }
}
