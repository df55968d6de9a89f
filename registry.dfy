/**
 * The registry both versions of HotLoader keep: `_tasks` (file to task),
 * `_ownerships` (file to ownership mode) and `_watch_descriptors` (watch
 * descriptor to task), with the operations whose code is the same in both
 * versions: the tail of unregister_task, the recovery sweep
 * (restart_stopped_tasks), rewatch_task, and the dispatch half of work_loop.
 *
 * Calling a task's on_reload is recorded by appending the task to the ghost
 * log `reloads`; deleting a task is recorded by adding it to the ghost
 * multiset `deleted`.
 */
module TaskRegistry {
  import opened Inotify
  import opened Events
  import opened Tasks

  /** Who deletes a task when it is unregistered: the loader (OwnTask) or the caller. */
  datatype Ownership = OwnTask | DoesntOwnTask

  /** kWatchEventMask: the only events a watch is created for. */
  const WatchEventMask: Mask := IN_CLOSE_WRITE + IN_IGNORED

  /** The concatenation of `ss`, in order. */
  function Flatten<T>(ss: seq<seq<T>>): (s: seq<T>) {
    if ss == [] then [] else Flatten(ss[..|ss| - 1]) + ss[|ss| - 1]
  }

  /** Appending a piece appends its elements. */
  lemma FlattenSnoc<T>(ss: seq<seq<T>>, s: seq<T>)
    ensures Flatten(ss + [s]) == Flatten(ss) + s
  {
    assert (ss + [s])[..|ss|] == ss;
  }

  /** A log that held `log0` plus the pieces `ss` and then gained `s` holds `log0` plus the pieces `ss + [s]`. */
  lemma LogGrows<T>(log0: seq<T>, before: seq<T>, after: seq<T>, ss: seq<seq<T>>, s: seq<T>)
    requires before == log0 + Flatten(ss) && after == before + s
    ensures after == log0 + Flatten(ss + [s])
  {
    FlattenSnoc(ss, s);
  }

  /** Concatenating pieces of at most one element each yields at most one element per piece. */
  lemma {:induction false} FlattenAtMostOneEach<T>(ss: seq<seq<T>>)
    requires forall i :: 0 <= i < |ss| ==> |ss[i]| <= 1
    ensures |Flatten(ss)| <= |ss|
  {
    if ss != [] {
      FlattenAtMostOneEach(ss[..|ss| - 1]);
    }
  }

  /** The tasks under `keys` that the loader owns. */
  ghost function OwnedAmong(tasks: map<string, HotLoadTask>, ownerships: map<string, Ownership>,
                            keys: set<string>): set<HotLoadTask>
  {
    set f | f in keys && f in tasks && f in ownerships && ownerships[f] == OwnTask :: tasks[f]
  }

  /**
   * What dispatching one known descriptor did, for coalesced mask `mask` and
   * task `t`, when the source's next descriptor was at least `base`: a plain
   * change fired `t` once and re-armed nothing (`armed` is -1); an
   * invalidated watch went to rewatch_task, which either re-armed `t` under
   * the fresh descriptor `armed` and fired it once, or left it unwatched
   * (`armed` is -1) and fired nothing.
   */
  ghost predicate Handled(out: seq<HotLoadTask>, armed: int, mask: Mask, t: HotLoadTask, base: int) {
    if Invalidated(mask) then (base <= armed && out == [t]) || (armed == -1 && out == [])
    else armed == -1 && out == [t]
  }

  /** The elements of `s` are pairwise distinct. */
  ghost predicate Distinct<T>(s: seq<T>) {
    forall i, j :: 0 <= i < j < |s| ==> s[i] != s[j]
  }

  /**
   * Progress of one dispatch pass over `masks` against the index `index0`,
   * started when the source's next descriptor was `base`: the descriptors
   * still `pending` are untouched, every other descriptor that the index
   * knows appears exactly once in `order`, `fired[i]` is what dispatching
   * `order[i]` appended to the reload log and `armed[i]` the descriptor its
   * rewatch obtained (-1 for none). The index `index` is `index0` plus
   * exactly those new descriptors, each under the task it re-armed.
   */
  ghost predicate DispatchedSoFar(masks: map<int, Mask>, index0: map<int, HotLoadTask>, base: int, pending: set<int>,
                                  order: seq<int>, fired: seq<seq<HotLoadTask>>, armed: seq<int>,
                                  index: map<int, HotLoadTask>)
  {
    && 1 <= base
    && pending <= masks.Keys
    && Distinct(order)
    && (forall w :: w in order <==> w in masks && w !in pending && w in index0)
    && |fired| == |order| && |armed| == |order|
    && (forall i :: 0 <= i < |order| ==>
          order[i] in masks && order[i] in index0 && Handled(fired[i], armed[i], masks[order[i]], index0[order[i]], base))
    && (forall w :: w in index <==> w in index0 || (base <= w && w in armed))
    && (forall w :: w in index0 ==> w in index && index[w] == index0[w])
    && (forall i :: 0 <= i < |order| && base <= armed[i] ==>
          armed[i] in index && order[i] in index0 && index[armed[i]] == index0[order[i]])
  }

  /** Whether dispatching `order[i]` sent the task `t` to rewatch_task. */
  ghost predicate Rewatches(masks: map<int, Mask>, index0: map<int, HotLoadTask>, order: seq<int>, i: int, t: HotLoadTask)
    requires 0 <= i < |order|
  {
    order[i] in index0 && order[i] in masks && Invalidated(masks[order[i]]) && index0[order[i]] == t
  }

  /**
   * The descriptors the tasks hold after dispatching `order` against the
   * index `index0`, starting from `wd0`: each dispatch of an invalidated
   * watch leaves its task with `armed[i]` (the fresh descriptor, or -1 when
   * the rewatch failed); a plain change leaves the descriptor alone.
   */
  ghost function Rewired(wd0: map<HotLoadTask, int>, masks: map<int, Mask>, index0: map<int, HotLoadTask>,
                         order: seq<int>, armed: seq<int>): (wds: map<HotLoadTask, int>)
    requires |armed| == |order|
    ensures wd0.Keys <= wds.Keys
    decreases |order|
  {
    if order == [] then wd0
    else
      var n := |order| - 1;
      var wds := Rewired(wd0, masks, index0, order[..n], armed[..n]);
      if order[n] in index0 && order[n] in masks && Invalidated(masks[order[n]]) then wds[index0[order[n]] := armed[n]]
      else wds
  }

  /** One more dispatch updates the descriptors exactly when it was a rewatch. */
  lemma RewiredSnoc(wd0: map<HotLoadTask, int>, masks: map<int, Mask>, index0: map<int, HotLoadTask>,
                    order: seq<int>, armed: seq<int>, w: int, a: int)
    requires |armed| == |order|
    ensures Rewired(wd0, masks, index0, order + [w], armed + [a]) ==
      if w in index0 && w in masks && Invalidated(masks[w]) then Rewired(wd0, masks, index0, order, armed)[index0[w] := a]
      else Rewired(wd0, masks, index0, order, armed)
  {
    assert (order + [w])[..|order|] == order && (armed + [a])[..|armed|] == armed;
  }

  /** A task that no dispatch sent to rewatch_task keeps its descriptor. */
  lemma {:induction false} RewiredUntouched(wd0: map<HotLoadTask, int>, masks: map<int, Mask>, index0: map<int, HotLoadTask>,
                                           order: seq<int>, armed: seq<int>, t: HotLoadTask)
    requires |armed| == |order| && t in wd0
    requires forall i :: 0 <= i < |order| ==> !Rewatches(masks, index0, order, i, t)
    ensures Rewired(wd0, masks, index0, order, armed)[t] == wd0[t]
  {
    if order != [] {
      var n := |order| - 1;
      assert !Rewatches(masks, index0, order, n, t);
      forall i | 0 <= i < n
        ensures !Rewatches(masks, index0, order[..n], i, t)
      {
        assert !Rewatches(masks, index0, order, i, t);
      }
      RewiredUntouched(wd0, masks, index0, order[..n], armed[..n], t);
    }
  }

  /** A task holds the descriptor its last rewatch left it with. */
  lemma {:induction false} RewiredLast(wd0: map<HotLoadTask, int>, masks: map<int, Mask>, index0: map<int, HotLoadTask>,
                                      order: seq<int>, armed: seq<int>, i: int, t: HotLoadTask)
    requires |armed| == |order| && 0 <= i < |order| && Rewatches(masks, index0, order, i, t)
    requires forall j :: i < j < |order| ==> !Rewatches(masks, index0, order, j, t)
    ensures t in Rewired(wd0, masks, index0, order, armed)
    ensures Rewired(wd0, masks, index0, order, armed)[t] == armed[i]
  {
    var n := |order| - 1;
    if i < n {
      assert !Rewatches(masks, index0, order, n, t);
      assert Rewatches(masks, index0, order[..n], i, t);
      forall j | i < j < n
        ensures !Rewatches(masks, index0, order[..n], j, t)
      {
        assert !Rewatches(masks, index0, order, j, t);
      }
      RewiredLast(wd0, masks, index0, order[..n], armed[..n], i, t);
    }
  }

  /** No dispatch in `order` sent the task `t` to rewatch_task. */
  ghost predicate Rewatchless(masks: map<int, Mask>, index0: map<int, HotLoadTask>, order: seq<int>, t: HotLoadTask) {
    forall i :: 0 <= i < |order| ==> !Rewatches(masks, index0, order, i, t)
  }

  /** No task that held the descriptor `w` in `wd0` was sent to rewatch_task by `order`. */
  ghost predicate Spared(masks: map<int, Mask>, index0: map<int, HotLoadTask>, order: seq<int>,
                         wd0: map<HotLoadTask, int>, w: int)
  {
    forall t :: t in wd0 && wd0[t] == w ==> Rewatchless(masks, index0, order, t)
  }

  /** One more dispatch sends `t` to rewatch_task exactly when its watch was invalidated and its descriptor maps to `t`. */
  lemma RewatchlessSnoc(masks: map<int, Mask>, index0: map<int, HotLoadTask>, order: seq<int>, w: int, t: HotLoadTask)
    ensures Rewatchless(masks, index0, order + [w], t) <==>
      Rewatchless(masks, index0, order, t) && !(w in index0 && w in masks && Invalidated(masks[w]) && index0[w] == t)
  {
    var order' := order + [w];
    if Rewatchless(masks, index0, order', t) {
      assert !Rewatches(masks, index0, order', |order|, t);
      forall i | 0 <= i < |order|
        ensures !Rewatches(masks, index0, order, i, t)
      {
        assert !Rewatches(masks, index0, order', i, t);
      }
    }
    if Rewatchless(masks, index0, order, t) && !(w in index0 && w in masks && Invalidated(masks[w]) && index0[w] == t) {
      forall i | 0 <= i < |order'|
        ensures !Rewatches(masks, index0, order', i, t)
      {
        if i < |order| {
          assert !Rewatches(masks, index0, order, i, t);
        }
      }
    }
  }

  /**
   * After a dispatch pass whose rewatches obtained either no descriptor or
   * one at least `base`, a task holds its own descriptor, none, or a fresh one.
   */
  lemma {:induction false} RewiredRange(wd0: map<HotLoadTask, int>, masks: map<int, Mask>, index0: map<int, HotLoadTask>,
                                       order: seq<int>, armed: seq<int>, base: int, t: HotLoadTask)
    requires |armed| == |order| && t in wd0
    requires forall i :: 0 <= i < |armed| ==> armed[i] == -1 || base <= armed[i]
    ensures t in Rewired(wd0, masks, index0, order, armed)
    ensures var d := Rewired(wd0, masks, index0, order, armed)[t]; d == wd0[t] || d == -1 || base <= d
  {
    if order != [] {
      var n := |order| - 1;
      RewiredRange(wd0, masks, index0, order[..n], armed[..n], base, t);
    }
  }

  /** How many entries of `armed` are fresh descriptors, at least `base`. */
  function Granted(armed: seq<int>, base: int): nat {
    if armed == [] then 0 else Granted(armed[..|armed| - 1], base) + (if base <= armed[|armed| - 1] then 1 else 0)
  }

  /**
   * The watch half of a dispatch pass's progress, from the watches
   * `watches0` and the descriptors `wd0` the tasks held when it started with
   * next descriptor `base`: a watch no rewatched task held is still there
   * unchanged; a watch some rewatched task held is gone when the inotify
   * descriptor is valid; every watch added since is a fresh descriptor that
   * the index maps to a task on whose file it is.
   */
  ghost predicate WatchedSoFar(fd: int, masks: map<int, Mask>, index0: map<int, HotLoadTask>, wd0: map<HotLoadTask, int>,
                               watches0: map<int, Watch>, base: int, order: seq<int>,
                               index: map<int, HotLoadTask>, watches: map<int, Watch>)
  {
    && (forall w :: w in watches0 ==> 1 <= w < base)
    && (forall w :: w in watches0 && Spared(masks, index0, order, wd0, w) ==> w in watches && watches[w] == watches0[w])
    && (forall t :: t in wd0 && wd0[t] in watches0 && fd >= 0 && !Rewatchless(masks, index0, order, t) ==> wd0[t] !in watches)
    && (forall w :: w in watches && w !in watches0 ==>
          base <= w && w in index && watches[w] == Watch(index[w].file, WatchEventMask))
  }

  /**
   * Dispatching the known descriptor `w` keeps the watch half: a plain change
   * touches no watch; a rewatch of the task releases the descriptor `cur` it
   * held, if live, and may add one fresh watch `a` on its file. Before its
   * first rewatch the task still held its own descriptor; after it, none
   * or a fresh one.
   */
  lemma WatchedStep(fd: int, masks: map<int, Mask>, index0: map<int, HotLoadTask>, wd0: map<HotLoadTask, int>,
                    watches0: map<int, Watch>, base: int, order: seq<int>,
                    index: map<int, HotLoadTask>, watches: map<int, Watch>, w: int, cur: int, a: int, next: int,
                    index': map<int, HotLoadTask>, watches': map<int, Watch>)
    requires WatchedSoFar(fd, masks, index0, wd0, watches0, base, order, index, watches)
    requires w in index0 && w in masks && index0[w] in wd0
    requires base <= next && forall v :: v in watches ==> 1 <= v < next
    requires Rewatchless(masks, index0, order, index0[w]) ==> cur == wd0[index0[w]]
    requires cur == wd0[index0[w]] || cur == -1 || base <= cur
    requires !Invalidated(masks[w]) ==> index' == index && watches' == watches
    requires Invalidated(masks[w]) ==>
      var watches1 := if fd >= 0 && cur in watches then watches - {cur} else watches;
      || (a == next && index' == index[a := index0[w]] && watches' == watches1[a := Watch(index0[w].file, WatchEventMask)])
      || (index' == index && watches' == watches1)
    ensures WatchedSoFar(fd, masks, index0, wd0, watches0, base, order + [w], index', watches')
  {
    var tw, order' := index0[w], order + [w];
    forall t
      ensures Rewatchless(masks, index0, order', t) <==> Rewatchless(masks, index0, order, t) && !(Invalidated(masks[w]) && tw == t)
    {
      RewatchlessSnoc(masks, index0, order, w, t);
    }
    // The descriptor a rewatch releases is either the task's own, whose watch is no longer spared, or not an old one.
    if Invalidated(masks[w]) && cur in watches0 {
      assert cur == wd0[tw] && !Rewatchless(masks, index0, order', tw);
      assert !Spared(masks, index0, order', wd0, cur);
    }
    forall v | v in watches0 && Spared(masks, index0, order', wd0, v)
      ensures v in watches' && watches'[v] == watches0[v]
    {
      assert Spared(masks, index0, order, wd0, v);
    }
    forall t | t in wd0 && wd0[t] in watches0 && fd >= 0 && !Rewatchless(masks, index0, order', t)
      ensures wd0[t] !in watches'
    {
      if Rewatchless(masks, index0, order, t) {
        assert t == tw && cur == wd0[t];
      }
    }
  }

  /**
   * The state a dispatch pass starts from: the tasks' descriptors, the
   * index, the watches, the reload log, the existing files, the normal
   * forms, the epoll interest list, the next descriptor, and the budget plus
   * the live watches.
   */
  datatype PassStart = PassStart(wd0: map<HotLoadTask, int>, index0: map<int, HotLoadTask>, watches0: map<int, Watch>,
                                 reloads0: seq<HotLoadTask>, files0: set<string>, canonical0: map<string, string>,
                                 interest0: set<(int, int)>, base: int, total0: int)

  /**
   * Progress of a dispatch pass over `masks` from `p`, over the values it has
   * now: DispatchedSoFar for the index and the log, every task holds (in
   * `wds`) the descriptor its rewatches left it, each fresh descriptor used
   * up one step of the allocator `next`, the budget plus the live watches
   * (`total`) stayed as it was, and the watches moved on as WatchedSoFar
   * says.
   */
  ghost predicate Dispatching(fd: int, masks: map<int, Mask>, p: PassStart, pending: set<int>,
                              order: seq<int>, fired: seq<seq<HotLoadTask>>, armed: seq<int>,
                              wds: map<HotLoadTask, int>, index: map<int, HotLoadTask>, watches: map<int, Watch>,
                              next: int, total: int, reloads: seq<HotLoadTask>)
  {
    && p.wd0.Keys == p.index0.Values && wds.Keys == p.wd0.Keys
    && (forall w :: w in masks ==> w < p.base)
    && DispatchedSoFar(masks, p.index0, p.base, pending, order, fired, armed, index)
    && reloads == p.reloads0 + Flatten(fired)
    && (forall t :: t in wds ==> wds[t] == Rewired(p.wd0, masks, p.index0, order, armed)[t])
    && next == p.base + Granted(armed, p.base)
    && total == p.total0
    && WatchedSoFar(fd, masks, p.index0, p.wd0, p.watches0, p.base, order, index, watches)
  }

  /**
   * Dispatching the pending known descriptor `w` keeps the progress. Its task
   * `t` held `wds[t]`; a plain change fires it and touches nothing else; a
   * rewatch releases that descriptor's watch if it was live and either adds
   * the fresh watch `a` on the task's file, under the next descriptor, or
   * leaves the task with none.
   */
  lemma DispatchKeeps(fd: int, masks: map<int, Mask>, p: PassStart, pending: set<int>,
                      order: seq<int>, fired: seq<seq<HotLoadTask>>, armed: seq<int>,
                      wds: map<HotLoadTask, int>, index: map<int, HotLoadTask>, watches: map<int, Watch>,
                      next: int, total: int, reloads: seq<HotLoadTask>,
                      w: int, out: seq<HotLoadTask>, a: int,
                      wds': map<HotLoadTask, int>, index': map<int, HotLoadTask>, watches': map<int, Watch>,
                      next': int, total': int, reloads': seq<HotLoadTask>)
    requires Dispatching(fd, masks, p, pending, order, fired, armed, wds, index, watches, next, total, reloads)
    requires w in pending && w in p.index0
    requires forall v :: v in watches ==> 1 <= v < next
    requires wds'.Keys == wds.Keys && forall t :: t in wds && t != p.index0[w] ==> wds'[t] == wds[t]
    requires Invalidated(masks[w]) ==> wds'[p.index0[w]] == a
    requires !Invalidated(masks[w]) ==> wds'[p.index0[w]] == wds[p.index0[w]]
    requires Handled(out, a, masks[w], p.index0[w], p.base) && (a == -1 || a == next)
    requires reloads' == reloads + out && total' == total
    requires next' == next + (if next <= a then 1 else 0)
    requires p.base <= a ==> a !in index && index' == index[a := p.index0[w]]
    requires a < p.base ==> index' == index
    requires !Invalidated(masks[w]) ==> watches' == watches
    requires Invalidated(masks[w]) ==>
      var cur := wds[p.index0[w]];
      var watches1 := if fd >= 0 && cur in watches then watches - {cur} else watches;
      watches' == if a == next then watches1[a := Watch(p.index0[w].file, WatchEventMask)] else watches1
    ensures Dispatching(fd, masks, p, pending - {w}, order + [w], fired + [out], armed + [a],
                        wds', index', watches', next', total', reloads')
  {
    var tw, order', armed' := p.index0[w], order + [w], armed + [a];
    assert 1 <= p.base <= next;
    assert DispatchedSoFar(masks, p.index0, p.base, pending - {w}, order', fired + [out], armed', index') by {
      DispatchedStep(masks, p.index0, p.base, pending, order, fired, armed, index, w, out, a, index');
    }
    assert reloads' == p.reloads0 + Flatten(fired + [out]) by {
      LogGrows(p.reloads0, reloads, reloads', fired, out);
    }
    assert forall t :: t in wds' ==> wds'[t] == Rewired(p.wd0, masks, p.index0, order', armed')[t] by {
      RewiredSnoc(p.wd0, masks, p.index0, order, armed, w, a);
    }
    assert next' == p.base + Granted(armed', p.base) by {
      assert armed'[..|armed|] == armed;
    }
    DispatchKeepsWatches(fd, masks, p, pending, order, fired, armed, wds, index, watches, next, total, reloads,
                         w, a, index', watches');
  }

  /** The watch half of DispatchKeeps. */
  lemma DispatchKeepsWatches(fd: int, masks: map<int, Mask>, p: PassStart, pending: set<int>,
                             order: seq<int>, fired: seq<seq<HotLoadTask>>, armed: seq<int>,
                             wds: map<HotLoadTask, int>, index: map<int, HotLoadTask>, watches: map<int, Watch>,
                             next: int, total: int, reloads: seq<HotLoadTask>,
                             w: int, a: int, index': map<int, HotLoadTask>, watches': map<int, Watch>)
    requires Dispatching(fd, masks, p, pending, order, fired, armed, wds, index, watches, next, total, reloads)
    requires w in p.index0 && w in masks
    requires forall v :: v in watches ==> 1 <= v < next
    requires p.base <= a ==> a == next && index' == index[a := p.index0[w]]
    requires a < p.base ==> index' == index
    requires !Invalidated(masks[w]) ==> watches' == watches && index' == index
    requires Invalidated(masks[w]) ==>
      var cur := wds[p.index0[w]];
      var watches1 := if fd >= 0 && cur in watches then watches - {cur} else watches;
      watches' == if a == next then watches1[a := Watch(p.index0[w].file, WatchEventMask)] else watches1
    ensures WatchedSoFar(fd, masks, p.index0, p.wd0, p.watches0, p.base, order + [w], index', watches')
  {
    var tw := p.index0[w];
    assert 1 <= p.base <= next;
    forall i | 0 <= i < |armed|
      ensures armed[i] == -1 || p.base <= armed[i]
    {
      assert Handled(fired[i], armed[i], masks[order[i]], p.index0[order[i]], p.base);
    }
    RewiredRange(p.wd0, masks, p.index0, order, armed, p.base, tw);
    if Rewatchless(masks, p.index0, order, tw) {
      RewiredUntouched(p.wd0, masks, p.index0, order, armed, tw);
    }
    WatchedStep(fd, masks, p.index0, p.wd0, p.watches0, p.base, order, index, watches, w, wds[tw], a, next,
                index', watches');
  }

  /**
   * Progress of unregister_all_tasks: once only the keys `pending` are left
   * to look at, exactly the owned tasks among the others have been added to
   * the deleted tasks `gone0`, each once.
   */
  ghost predicate DeletedSoFar(gone0: multiset<HotLoadTask>, gone: multiset<HotLoadTask>,
                               tasks: map<string, HotLoadTask>, ownerships: map<string, Ownership>, pending: set<string>)
  {
    && pending <= tasks.Keys
    && gone == gone0 + multiset(OwnedAmong(tasks, ownerships, tasks.Keys - pending))
  }

  /**
   * Looking at one more key deletes its task exactly when the loader owns it;
   * because every task is stored under its own file, that task was not among
   * the owned tasks already deleted, so each owned task is deleted once.
   */
  lemma {:induction false} DeletedStep(gone0: multiset<HotLoadTask>, gone: multiset<HotLoadTask>,
                                       tasks: map<string, HotLoadTask>, ownerships: map<string, Ownership>,
                                       pending: set<string>, f: string)
    requires forall g :: g in tasks ==> tasks[g].file == g
    requires f in pending && f in ownerships
    requires DeletedSoFar(gone0, gone, tasks, ownerships, pending)
    ensures DeletedSoFar(gone0, gone + (if ownerships[f] == OwnTask then multiset{tasks[f]} else multiset{}),
                         tasks, ownerships, pending - {f})
  {
    var done := tasks.Keys - pending;
    assert tasks.Keys - (pending - {f}) == done + {f};
    var before, after := OwnedAmong(tasks, ownerships, done), OwnedAmong(tasks, ownerships, done + {f});
    forall g | g in done
      ensures tasks[g] != tasks[f]
    {
      assert tasks[g].file == g != f;
    }
    if ownerships[f] == OwnTask {
      assert after == before + {tasks[f]};
      assert multiset(after) == multiset(before) + multiset{tasks[f]};
    } else {
      assert after == before;
    }
  }

  /**
   * Dispatching a pending descriptor the index knows records it once more in
   * the progress, with the index `index'` it left behind.
   */
  lemma DispatchedStep(masks: map<int, Mask>, index0: map<int, HotLoadTask>, base: int, pending: set<int>,
                       order: seq<int>, fired: seq<seq<HotLoadTask>>, armed: seq<int>, index: map<int, HotLoadTask>,
                       w: int, out: seq<HotLoadTask>, a: int, index': map<int, HotLoadTask>)
    requires DispatchedSoFar(masks, index0, base, pending, order, fired, armed, index)
    requires w in pending && w in index0 && Handled(out, a, masks[w], index0[w], base)
    requires base <= a ==> a !in index && index' == index[a := index0[w]]
    requires a < base ==> index' == index
    ensures DispatchedSoFar(masks, index0, base, pending - {w}, order + [w], fired + [out], armed + [a], index')
  {
    assert w !in order;
    var order', fired', armed' := order + [w], fired + [out], armed + [a];
    forall i | 0 <= i < |order'|
      ensures order'[i] in masks && order'[i] in index0 && Handled(fired'[i], armed'[i], masks[order'[i]], index0[order'[i]], base)
    {
      if i < |order| {
        assert order'[i] == order[i] && fired'[i] == fired[i] && armed'[i] == armed[i];
      }
    }
    forall v
      ensures v in index' <==> v in index0 || (base <= v && v in armed')
    {
      if v in armed' && v !in armed {
        assert v == a;
      }
    }
    forall i | 0 <= i < |order'| && base <= armed'[i]
      ensures armed'[i] in index' && order'[i] in index0 && index'[armed'[i]] == index0[order'[i]]
    {
      if i < |order| {
        assert order'[i] == order[i] && armed'[i] == armed[i];
        assert armed[i] in index;
      }
    }
  }

  /** Skipping a pending descriptor the index does not know leaves the progress otherwise alone. */
  lemma DispatchedSkip(masks: map<int, Mask>, index0: map<int, HotLoadTask>, base: int, pending: set<int>,
                       order: seq<int>, fired: seq<seq<HotLoadTask>>, armed: seq<int>, index: map<int, HotLoadTask>, w: int)
    requires DispatchedSoFar(masks, index0, base, pending, order, fired, armed, index)
    requires w in pending && w !in index0
    ensures DispatchedSoFar(masks, index0, base, pending - {w}, order, fired, armed, index)
  {
  }

  /** The descriptor each task in `all` holds. */
  ghost function DescriptorsOf(all: set<HotLoadTask>): (wds: map<HotLoadTask, int>)
    reads all
    ensures wds.Keys == all && forall t :: t in all ==> wds[t] == t.wd
  {
    map t | t in all :: t.wd
  }

  /**
   * The descriptor half of the sweep's progress, over the descriptors `wds`
   * the tasks hold now and the index: exactly the tasks `rearmed` changed
   * descriptor since `wd0`, each one was unwatched with an existing file and
   * now holds a fresh descriptor the index maps to it and a watch on its
   * file, the index and the watches `watches` kept every entry of `index0`
   * and `watches0`, and each entry they gained belongs to such a task.
   */
  ghost predicate SweptDescriptors(wds: map<HotLoadTask, int>, index: map<int, HotLoadTask>, watches: map<int, Watch>,
                                   pending: set<HotLoadTask>, rearmed: set<HotLoadTask>,
                                   wd0: map<HotLoadTask, int>, index0: map<int, HotLoadTask>, watches0: map<int, Watch>,
                                   files0: set<string>, next0: int)
  {
    && wds.Keys == wd0.Keys
    && pending <= wds.Keys && rearmed <= wds.Keys && pending !! rearmed
    && (forall t :: t in wds ==> (t in rearmed <==> wds[t] != wd0[t]))
    && (forall t :: t in rearmed ==> wd0[t] < 0 && t.file in files0 && next0 <= wds[t] && wds[t] in index && index[wds[t]] == t)
    && (forall w :: w in index0 ==> w in index && index[w] == index0[w])
    && (forall w :: w in index && w !in index0 ==> index[w] in rearmed && wds[index[w]] == w)
    && (forall w :: w in watches0 ==> w in watches && watches[w] == watches0[w])
    && (forall t :: t in rearmed ==> wds[t] in watches && watches[wds[t]] == Watch(t.file, WatchEventMask))
    && (forall w :: w in watches && w !in watches0 ==> w in index && index[w] in rearmed)
  }

  /**
   * Visiting the pending task `t` keeps the descriptor half of the sweep's
   * progress: either `t` was re-armed under a descriptor no entry of the
   * index used, or neither its descriptor nor the index changed; no other
   * task moved.
   */
  lemma RestartKeepsDescriptors(wds: map<HotLoadTask, int>, wds': map<HotLoadTask, int>,
                                index: map<int, HotLoadTask>, index': map<int, HotLoadTask>,
                                watches: map<int, Watch>, watches': map<int, Watch>,
                                t: HotLoadTask, armed: bool, pending: set<HotLoadTask>,
                                rearmed: set<HotLoadTask>, rearmed': set<HotLoadTask>,
                                wd0: map<HotLoadTask, int>, index0: map<int, HotLoadTask>, watches0: map<int, Watch>,
                                files0: set<string>, next0: int)
    requires SweptDescriptors(wds, index, watches, pending, rearmed, wd0, index0, watches0, files0, next0)
    requires t in pending && wds'.Keys == wds.Keys
    requires forall u :: u in wds && u != t ==> wds'[u] == wds[u]
    requires armed ==>
      && wds[t] < 0 <= wds'[t] && t.file in files0 && next0 <= wds'[t]
      && (forall w :: w in index ==> w < wds'[t]) && wds'[t] !in watches
      && index' == index[wds'[t] := t] && rearmed' == rearmed + {t}
      && watches' == watches[wds'[t] := Watch(t.file, WatchEventMask)]
    requires !armed ==> wds'[t] == wds[t] && index' == index && rearmed' == rearmed && watches' == watches
    ensures SweptDescriptors(wds', index', watches', pending - {t}, rearmed', wd0, index0, watches0, files0, next0)
  {
  }

  /**
   * The state a sweep starts from: the tasks' descriptors, the index, the
   * watches, the reload log, the existing files, the next descriptor and the
   * watch budget.
   */
  datatype SweepStart = SweepStart(wd0: map<HotLoadTask, int>, index0: map<int, HotLoadTask>, watches0: map<int, Watch>,
                                   reloads0: seq<HotLoadTask>, files0: set<string>, next0: int, budget0: int)

  /**
   * The budget half of the sweep's progress from `s`: `fired` is what the
   * sweep appended to the reload log, each re-arm used up one watch and one
   * descriptor, and every task already visited that could have been
   * re-armed but was not met an empty budget.
   */
  ghost predicate SweptBudget(fd: int, s: SweepStart, pending: set<HotLoadTask>, rearmed: set<HotLoadTask>,
                              fired: seq<HotLoadTask>, next: int, capacity: int, reloads: seq<HotLoadTask>)
  {
    && next == s.next0 + |fired|
    && reloads == s.reloads0 + fired && multiset(fired) == multiset(rearmed)
    && capacity == s.budget0 - |fired|
    && (forall t :: t in s.wd0 && t !in pending && s.wd0[t] < 0 && t.file in s.files0 && fd >= 0 && t !in rearmed ==>
          capacity == 0)
  }

  /**
   * Visiting the pending task `t` keeps the budget half: a re-arm uses the
   * next descriptor, one unit of budget and one reload; a task left alone
   * that could have been re-armed met an empty budget.
   */
  lemma RestartKeepsBudget(fd: int, s: SweepStart, t: HotLoadTask, armed: bool, pending: set<HotLoadTask>,
                           rearmed: set<HotLoadTask>, fired: seq<HotLoadTask>,
                           next: int, capacity: int, reloads: seq<HotLoadTask>,
                           next': int, capacity': int, reloads': seq<HotLoadTask>)
    requires SweptBudget(fd, s, pending, rearmed, fired, next, capacity, reloads)
    requires t in pending && t in s.wd0 && t !in rearmed && 0 <= capacity
    requires armed <==> s.wd0[t] < 0 && fd >= 0 && t.file in s.files0 && capacity > 0
    requires armed ==> next' == next + 1 && capacity' == capacity - 1 && reloads' == reloads + [t]
    requires !armed ==> next' == next && capacity' == capacity && reloads' == reloads
    ensures armed ==> SweptBudget(fd, s, pending - {t}, rearmed + {t}, fired + [t], next', capacity', reloads')
    ensures !armed ==> SweptBudget(fd, s, pending - {t}, rearmed, fired, next', capacity', reloads')
  {
    if armed {
      assert multiset(fired + [t]) == multiset(fired) + multiset{t};
      // Every task visited before that was left alone met an empty budget, so there is none.
      forall u | u in s.wd0 && u !in pending && s.wd0[u] < 0 && u.file in s.files0 && fd >= 0
        ensures u in rearmed
      {
      }
    } else if s.wd0[t] < 0 && t.file in s.files0 && fd >= 0 {
      assert capacity == 0;
    }
  }

  class Registry {
    var tasks: map<string, HotLoadTask>
    var ownerships: map<string, Ownership>
    var index: map<int, HotLoadTask>
    ghost var reloads: seq<HotLoadTask>
    ghost var deleted: multiset<HotLoadTask>
    const source: NotificationSource

    /**
     * Every registered file has an ownership mode and vice versa, every task is
     * stored under its own file, no registered task has been deleted, and every
     * descriptor in the index was handed out by the source.
     */
    ghost predicate Valid()
      reads this, source
    {
      && WatchesValid()
      && tasks.Keys == ownerships.Keys
      && (forall f :: f in tasks ==> tasks[f].file == f)
      && (forall t :: t in tasks.Values ==> t !in deleted)
    }

    /** The source is consistent and every descriptor in the index was handed out by it. */
    ghost predicate WatchesValid()
      reads this, source
    {
      source.Valid() && (forall w :: w in index ==> 1 <= w < source.nextWd)
    }

    /** The descriptor each task in the index holds. */
    ghost function TaskDescriptors(): (wds: map<HotLoadTask, int>)
      reads this, index.Values
      ensures wds.Keys == index.Values
    {
      map t | t in index.Values :: t.wd
    }

    /** Every registered task that holds a descriptor is found under it in the index. */
    ghost predicate Indexed()
      reads this, tasks.Values
    {
      forall t :: t in tasks.Values && t.wd >= 0 ==> t.wd in index && index[t.wd] == t
    }

    constructor (source: NotificationSource)
      requires source.Valid()
      ensures Valid() && Indexed()
      ensures this.source == source
      ensures tasks == map[] && ownerships == map[] && index == map[]
      ensures reloads == [] && deleted == multiset{}
    {
      this.source := source;
      tasks, ownerships, index := map[], map[], map[];
      reloads, deleted := [], multiset{};
    }

    /**
     * The effect of unregistering the task `t` registered under `key`: both
     * file maps lose `key`, the index loses the task's descriptor if it held
     * one, the source releases its watch, the task is left unwatched, and it
     * is deleted if and only if the loader owned it.
     */
    twostate predicate Unregistered(fd: int, key: string, t: HotLoadTask)
      reads this, source, t
    {
      && old(key in tasks && key in ownerships && tasks[key] == t)
      && tasks == old(tasks) - {key}
      && ownerships == old(ownerships) - {key}
      && index == (if old(t.wd) >= 0 then old(index) - {old(t.wd)} else old(index))
      && t.wd == -1
      && source.Released(fd, old(t.wd))
      && deleted == old(deleted) + (if old(ownerships[key]) == OwnTask then multiset{t} else multiset{})
      && reloads == old(reloads)
    }

    /**
     * The map writes of register_task: the task is entered under its own file
     * with its ownership mode. The index is not touched, so the registry stays
     * indexed exactly when the task is unwatched or already indexed.
     */
    method Enroll(t: HotLoadTask, ownership: Ownership)
      requires Valid() && t.file !in tasks && t !in deleted
      modifies this`tasks, this`ownerships
      ensures Valid()
      ensures tasks == old(tasks)[t.file := t] && ownerships == old(ownerships)[t.file := ownership]
      ensures old(Indexed()) && (t.wd >= 0 ==> t.wd in index && index[t.wd] == t) ==> Indexed()
    {
      tasks := tasks[t.file := t];
      ownerships := ownerships[t.file := ownership];
      if old(Indexed()) && (t.wd >= 0 ==> t.wd in index && index[t.wd] == t) {
        forall u | u in tasks.Values && u.wd >= 0
          ensures u.wd in index && index[u.wd] == u
        {
          if u != t {
            assert u in old(tasks.Values);
          }
        }
      }
    }

    /**
     * The tail of a successful register_task: the task takes the fresh
     * descriptor `wd` and is indexed under it. No entry of the index changes.
     */
    method IndexTask(t: HotLoadTask, wd: int)
      requires WatchesValid() && 1 <= wd < source.nextWd && wd !in index
      modifies this`index, t
      ensures WatchesValid()
      ensures t.wd == wd && index == old(index)[wd := t]
      ensures old(Indexed()) ==> Indexed()
    {
      t.SetWatchDescriptor(wd);
      index := index[wd := t];
    }

    /**
     * Drops the watch `t` holds, if any: the source removes it, the index
     * forgets its descriptor, and the task is left unwatched.
     */
    method ReleaseWatch(fd: int, t: HotLoadTask)
      requires source.Valid()
      modifies this`index, source, t
      ensures source.Valid() && source.Released(fd, old(t.wd))
      ensures index == (if old(t.wd) >= 0 then old(index) - {old(t.wd)} else old(index))
      ensures t.wd == -1
    {
      if t.wd >= 0 {
        source.RemoveWatch(fd, t.wd);
        index := index - {t.wd};
      }
      t.SetWatchDescriptor(-1);
    }

    /** Erases `key` from both file maps, deleting its task if the loader owned it. */
    method Forget(key: string)
      requires key in tasks && key in ownerships
      modifies this`tasks, this`ownerships, this`deleted
      ensures tasks == old(tasks) - {key} && ownerships == old(ownerships) - {key}
      ensures deleted == old(deleted) + (if old(ownerships[key]) == OwnTask then multiset{old(tasks[key])} else multiset{})
    {
      if ownerships[key] == OwnTask {
        deleted := deleted + multiset{tasks[key]};
      }
      tasks := tasks - {key};
      ownerships := ownerships - {key};
    }

    /** The common tail of both unregister_task(const std::string&). */
    method Remove(fd: int, key: string)
      requires Valid() && key in tasks
      modifies this, source, tasks[key]
      ensures Valid() && (old(Indexed()) ==> Indexed())
      ensures Unregistered(fd, key, old(tasks[key]))
      ensures source.nextWd == old(source.nextWd)
    {
      var t := tasks[key];
      Forget(key);
      // Every task is stored under its own file, so `t` is no longer registered.
      forall g | g in tasks
        ensures tasks[g] != t
      {
        assert tasks[g].file == g != key;
      }
      ReleaseWatch(fd, t);
      if old(Indexed()) {
        forall u | u in tasks.Values && u.wd >= 0
          ensures u.wd in index && index[u.wd] == u
        {
          assert u in old(tasks.Values) && u != t;
        }
      }
    }

    /**
     * The re-add shared by the sweep and rewatch_task, for a task whose file
     * exists: inotify_add_watch, and on success on_reload, the new descriptor
     * on the task and the task indexed under it. On failure nothing changes.
     */
    method Rearm(fd: int, t: HotLoadTask) returns (wd: int)
      requires WatchesValid()
      modifies this`index, this`reloads, source, t
      ensures WatchesValid()
      ensures source.files == old(source.files) && source.canonical == old(source.canonical)
      ensures source.interest == old(source.interest)
      ensures old(source.Admits(fd, t.file)) ==>
        && wd == t.wd == old(source.nextWd) && source.nextWd == wd + 1
        && index == old(index)[wd := t] && reloads == old(reloads) + [t]
        && source.capacity == old(source.capacity) - 1
        && source.watches == old(source.watches)[wd := Watch(t.file, WatchEventMask)]
      ensures !old(source.Admits(fd, t.file)) ==>
        && wd == -1 && t.wd == old(t.wd) && source.nextWd == old(source.nextWd)
        && source.watches == old(source.watches)
        && index == old(index) && reloads == old(reloads) && source.capacity == old(source.capacity)
    {
      wd := source.AddWatch(fd, t.file, WatchEventMask);
      if wd >= 0 {
        reloads := reloads + [t];
        t.SetWatchDescriptor(wd);
        index := index[wd := t];
      }
    }

    /**
     * Whether rewatch_task(t) obtains a new watch in this state: the file
     * exists and inotify_add_watch succeeds after the old watch was removed.
     */
    ghost predicate RewatchSucceeds(fd: int, t: HotLoadTask)
      reads this, source, t
    {
      && fd >= 0
      && t.file in source.files
      && (source.capacity > 0 || (t.wd >= 0 && source.Holds(fd, t.wd)))
    }

    /**
     * What rewatch_task(t) does to the source: inotify_rm_watch releases the
     * old watch if it was live, and then, when the rewatch succeeds, one fresh
     * watch on the task's file is added with one unit of budget; otherwise the
     * source is left with the release alone. Files, normal forms and the epoll
     * interest list stay.
     */
    twostate predicate Rewatched(fd: int, t: HotLoadTask)
      reads this, source, t
    {
      var held := old(source.Holds(fd, t.wd));
      var watches1 := if held then old(source.watches) - {old(t.wd)} else old(source.watches);
      var budget1 := old(source.capacity) + (if held then 1 else 0);
      && source.files == old(source.files) && source.canonical == old(source.canonical)
      && source.interest == old(source.interest)
      && if old(RewatchSucceeds(fd, t)) then
           && source.nextWd == old(source.nextWd) + 1
           && source.watches == watches1[old(source.nextWd) := Watch(t.file, WatchEventMask)]
           && source.capacity == budget1 - 1
         else
           && source.nextWd == old(source.nextWd)
           && source.watches == watches1 && source.capacity == budget1
    }

    /**
     * rewatch_task: drop the task's old watch, then either re-add it (firing
     * on_reload once and indexing the new descriptor) or leave the task
     * unwatched for the next sweep. The stale descriptor stays in the index.
     */
    method RewatchTask(fd: int, t: HotLoadTask?)
      requires WatchesValid()
      modifies this`index, this`reloads, source, t
      ensures WatchesValid() && (old(Indexed()) ==> Indexed())
      ensures source.files == old(source.files) && old(source.nextWd) <= source.nextWd
      ensures source.capacity + |source.watches| == old(source.capacity + |source.watches|)
      ensures t == null ==> unchanged(this, source)
      ensures t != null ==> Rewatched(fd, t)
      ensures t != null && old(RewatchSucceeds(fd, t)) ==>
        && t.wd == old(source.nextWd)
        && index == old(index)[t.wd := t]
        && reloads == old(reloads) + [t]
      ensures t != null && !old(RewatchSucceeds(fd, t)) ==>
        t.wd == -1 && index == old(index) && reloads == old(reloads)
    {
      if t == null {
        return;
      }
      if t.wd >= 0 {
        source.RemoveWatch(fd, t.wd);
      }
      assert source.watches == (if old(source.Holds(fd, t.wd)) then old(source.watches) - {old(t.wd)} else old(source.watches));
      var present := source.Exists(t.file);
      if !present {
        t.SetWatchDescriptor(-1);
        return;
      }
      var wd := Rearm(fd, t);
      if wd < 0 {
        t.SetWatchDescriptor(-1);
      }
    }

    /**
     * One step of the sweep: a task that is unwatched and whose file exists is
     * re-armed if the source grants a watch; any other task is left alone.
     */
    method RestartTask(fd: int, t: HotLoadTask) returns (ghost rearmed: bool)
      requires WatchesValid()
      modifies this`index, this`reloads, source, t
      ensures WatchesValid()
      ensures source.files == old(source.files) && source.canonical == old(source.canonical)
      ensures source.interest == old(source.interest)
      ensures rearmed <==> old(t.wd < 0 && source.Admits(fd, t.file))
      ensures source.capacity == old(source.capacity) - (if rearmed then 1 else 0)
      ensures rearmed ==>
        && old(source.nextWd) == t.wd && index == old(index)[t.wd := t] && reloads == old(reloads) + [t]
        && source.watches == old(source.watches)[t.wd := Watch(t.file, WatchEventMask)]
        && source.nextWd == old(source.nextWd) + 1
      ensures !rearmed ==>
        && t.wd == old(t.wd) && index == old(index) && reloads == old(reloads)
        && source.watches == old(source.watches) && source.nextWd == old(source.nextWd)
    {
      rearmed := false;
      if t.wd < 0 {
        var present := source.Exists(t.file);
        if present {
          var wd := Rearm(fd, t);
          rearmed := wd >= 0;
        }
      }
    }

    /** Progress of the sweep over `all` from `s`, on the registry's and the source's current values. */
    ghost predicate SweptSoFar(fd: int, all: set<HotLoadTask>, s: SweepStart, pending: set<HotLoadTask>,
                               rearmed: set<HotLoadTask>, fired: seq<HotLoadTask>)
      reads this, source, all
    {
      && WatchesValid()
      && SweptDescriptors(DescriptorsOf(all), index, source.watches, pending, rearmed,
                          s.wd0, s.index0, s.watches0, s.files0, s.next0)
      && source.files == s.files0
      && SweptBudget(fd, s, pending, rearmed, fired, source.nextWd, source.capacity, reloads)
    }

    /** One iteration of the sweep: visiting the pending task `t` keeps the progress. */
    method SweepStep(fd: int, t: HotLoadTask, ghost all: set<HotLoadTask>, ghost s: SweepStart, ghost pending: set<HotLoadTask>,
                     ghost rearmed: set<HotLoadTask>, ghost fired: seq<HotLoadTask>)
      returns (ghost rearmed': set<HotLoadTask>, ghost fired': seq<HotLoadTask>)
      requires SweptSoFar(fd, all, s, pending, rearmed, fired)
      requires t in pending
      modifies this`index, this`reloads, source, t
      ensures SweptSoFar(fd, all, s, pending - {t}, rearmed', fired')
      ensures source.canonical == old(source.canonical) && source.interest == old(source.interest)
    {
      ghost var wds, idx, watches := DescriptorsOf(all), index, source.watches;
      ghost var next, capacity, log := source.nextWd, source.capacity, reloads;
      assert t !in rearmed && t.wd == s.wd0[t];
      ghost var armed := RestartTask(fd, t);
      rearmed', fired' := if armed then rearmed + {t} else rearmed, if armed then fired + [t] else fired;
      ghost var wds' := DescriptorsOf(all);
      forall u | u in all && u != t
        ensures wds'[u] == wds[u]
      {
        assert u.wd == old(u.wd);
      }
      RestartKeepsDescriptors(wds, wds', idx, index, watches, source.watches, t, armed, pending, rearmed, rearmed',
                              s.wd0, s.index0, s.watches0, s.files0, s.next0);
      RestartKeepsBudget(fd, s, t, armed, pending, rearmed, fired, next, capacity, log,
                         source.nextWd, source.capacity, reloads);
    }

    /**
     * The loop of restart_stopped_tasks over the tasks `all`: a task that is
     * unwatched and whose file exists is re-armed when the source grants a
     * watch, and fires on_reload exactly once; every other task keeps its
     * descriptor and does not fire. Each re-arm uses up one watch, so such a
     * task is left unwatched only when the watch budget ran out. The index
     * only gains entries, each for a re-armed task under its new descriptor.
     */
    method Sweep(fd: int, all: set<HotLoadTask>) returns (ghost rearmed: set<HotLoadTask>)
      requires WatchesValid()
      modifies this`index, this`reloads, source, all
      ensures WatchesValid()
      ensures source.files == old(source.files) && source.nextWd == old(source.nextWd) + |rearmed|
      ensures source.canonical == old(source.canonical) && source.interest == old(source.interest)
      ensures forall w :: w in old(source.watches) ==> w in source.watches && source.watches[w] == old(source.watches)[w]
      ensures forall t :: t in rearmed ==> t.wd in source.watches && source.watches[t.wd] == Watch(t.file, WatchEventMask)
      ensures forall w :: w in source.watches && w !in old(source.watches) ==> w in index && index[w] in rearmed
      ensures rearmed <= all
      ensures forall t :: t in all ==> (t in rearmed <==> t.wd != old(t.wd))
      ensures forall t :: t in rearmed ==>
        old(t.wd) < 0 && t.file in source.files && old(source.nextWd) <= t.wd && t.wd in index && index[t.wd] == t
      ensures forall w :: w in old(index) ==> w in index && index[w] == old(index)[w]
      ensures forall w :: w in index && w !in old(index) ==> index[w] in rearmed && index[w].wd == w
      ensures |old(reloads)| <= |reloads| && reloads[..|old(reloads)|] == old(reloads)
      ensures multiset(reloads[|old(reloads)|..]) == multiset(rearmed)
      ensures source.capacity == old(source.capacity) - |rearmed|
      ensures forall t :: t in all && old(t.wd) < 0 && t.file in old(source.files) && fd >= 0 && t !in rearmed ==>
        source.capacity == 0
    {
      ghost var start := SweepStart(DescriptorsOf(all), index, source.watches, reloads, source.files,
                                    source.nextWd, source.capacity);
      ghost var fired: seq<HotLoadTask> := [];
      rearmed := {};
      var pending := all;
      while pending != {}
        invariant SweptSoFar(fd, all, start, pending, rearmed, fired)
        invariant source.canonical == old(source.canonical) && source.interest == old(source.interest)
        decreases pending
      {
        var t :| t in pending;
        rearmed, fired := SweepStep(fd, t, all, start, pending, rearmed, fired);
        pending := pending - {t};
      }
      assert reloads[|old(reloads)|..] == fired;
      assert |fired| == |multiset(fired)| == |multiset(rearmed)| == |rearmed|;
    }

    /**
     * restart_stopped_tasks: the sweep over every registered task. Exactly
     * the tasks `rearmed` change descriptor: each was unwatched with an
     * existing file, now holds a fresh indexed descriptor and fired on_reload
     * once. An unwatched task whose file exists stays unwatched only when the
     * watch budget ran out. The file maps and the deleted tasks are left
     * alone and the registry stays valid.
     */
    method RestartStoppedTasks(fd: int) returns (ghost rearmed: set<HotLoadTask>)
      requires Valid()
      modifies this`index, this`reloads, source, tasks.Values
      ensures Valid() && (old(Indexed()) ==> Indexed())
      ensures source.files == old(source.files) && source.nextWd == old(source.nextWd) + |rearmed|
      ensures source.canonical == old(source.canonical) && source.interest == old(source.interest)
      ensures forall w :: w in old(source.watches) ==> w in source.watches && source.watches[w] == old(source.watches)[w]
      ensures forall t :: t in rearmed ==> t.wd in source.watches && source.watches[t.wd] == Watch(t.file, WatchEventMask)
      ensures forall w :: w in source.watches && w !in old(source.watches) ==> w in index && index[w] in rearmed
      ensures rearmed <= tasks.Values
      ensures forall t :: t in tasks.Values ==> (t in rearmed <==> t.wd != old(t.wd))
      ensures forall t :: t in rearmed ==>
        old(t.wd) < 0 && t.file in source.files && old(source.nextWd) <= t.wd && t.wd in index && index[t.wd] == t
      ensures forall w :: w in old(index) ==> w in index && index[w] == old(index)[w]
      ensures forall w :: w in index && w !in old(index) ==> index[w] in rearmed && index[w].wd == w
      ensures |old(reloads)| <= |reloads| && reloads[..|old(reloads)|] == old(reloads)
      ensures multiset(reloads[|old(reloads)|..]) == multiset(rearmed)
      ensures source.capacity == old(source.capacity) - |rearmed|
      ensures forall t :: t in tasks.Values && old(t.wd) < 0 && t.file in old(source.files) && fd >= 0 && t !in rearmed ==>
        source.capacity == 0
    {
      rearmed := Sweep(fd, tasks.Values);
      // A task the sweep left alone keeps its old index entry.
      if old(Indexed()) {
        forall t | t in tasks.Values && t.wd >= 0 && t !in rearmed
          ensures t.wd in index && index[t.wd] == t
        {
          assert old(t.wd) == t.wd;
        }
      }
    }

    /**
     * One step of unregister_all_tasks: the watch `t` holds, if any, is removed
     * from the source and from the index (the task keeps its descriptor), and
     * `t` is deleted when the loader owns it.
     */
    method Unwatch(fd: int, t: HotLoadTask, owned: bool)
      requires source.Valid()
      modifies this`index, this`deleted, source
      ensures source.Valid() && source.Released(fd, t.wd)
      ensures source.capacity + |source.watches| == old(source.capacity + |source.watches|)
      ensures index == (if t.wd >= 0 then old(index) - {t.wd} else old(index))
      ensures fd >= 0 ==> source.watches == old(source.watches) - {t.wd}
      ensures fd < 0 ==> source.watches == old(source.watches)
      ensures deleted == old(deleted) + (if owned then multiset{t} else multiset{})
    {
      // A descriptor that is not live is not a key of the watches.
      assert fd >= 0 && !source.Holds(fd, t.wd) ==> source.watches - {t.wd} == source.watches;
      if t.wd >= 0 {
        source.RemoveWatch(fd, t.wd);
        index := index - {t.wd};
      }
      if owned {
        deleted := deleted + multiset{t};
      }
    }

    /**
     * Progress of unregister_all_tasks over `ts`, measured against the state
     * it started from (deleted tasks `deleted0`, watches `watches0`, budget
     * plus live watches `total0`, and the rest of the source): the watch of
     * every task already visited is gone, no other watch is, a released watch
     * gave its budget back, and the owned tasks visited were deleted once.
     */
    ghost predicate TornDownSoFar(fd: int, ts: map<string, HotLoadTask>, os: map<string, Ownership>, pending: set<string>,
                                  deleted0: multiset<HotLoadTask>, watches0: map<int, Watch>, total0: int,
                                  files0: set<string>, canonical0: map<string, string>, interest0: set<(int, int)>, next0: int)
      reads this, source, ts.Values
    {
      && source.Valid()
      && source.files == files0 && source.canonical == canonical0
      && source.interest == interest0 && source.nextWd == next0
      && (fd >= 0 ==> forall f :: f in ts && f !in pending ==> ts[f].wd !in source.watches)
      && (forall w :: w in source.watches ==> w in watches0 && source.watches[w] == watches0[w])
      && (forall w :: w in watches0 && (fd < 0 || forall f :: f in ts && f !in pending ==> ts[f].wd != w) ==>
            w in source.watches)
      && source.capacity + |source.watches| == total0
      && DeletedSoFar(deleted0, deleted, ts, os, pending)
    }

    /** One iteration of unregister_all_tasks: visiting the pending key `f` keeps the progress. */
    method UnwatchStep(fd: int, ts: map<string, HotLoadTask>, os: map<string, Ownership>, pending: set<string>, f: string,
                       ghost deleted0: multiset<HotLoadTask>, ghost watches0: map<int, Watch>, ghost total0: int,
                       ghost files0: set<string>, ghost canonical0: map<string, string>, ghost interest0: set<(int, int)>,
                       ghost next0: int)
      requires TornDownSoFar(fd, ts, os, pending, deleted0, watches0, total0, files0, canonical0, interest0, next0)
      requires f in pending && ts.Keys <= os.Keys && forall g :: g in ts ==> ts[g].file == g
      modifies this`index, this`deleted, source
      ensures TornDownSoFar(fd, ts, os, pending - {f}, deleted0, watches0, total0, files0, canonical0, interest0, next0)
    {
      DeletedStep(deleted0, deleted, ts, os, pending, f);
      Unwatch(fd, ts[f], os[f] == OwnTask);
    }

    /**
     * The loop of unregister_all_tasks over the registered tasks `ts` with
     * ownership modes `os`: every task's watch is removed from the source and
     * its descriptor from the index, and each task the loader owns is deleted
     * exactly once. Task descriptors are not reset.
     */
    method UnwatchAll(fd: int, ts: map<string, HotLoadTask>, os: map<string, Ownership>)
      requires source.Valid()
      requires ts.Keys <= os.Keys && forall g :: g in ts ==> ts[g].file == g
      modifies this`index, this`deleted, source
      ensures source.Valid()
      ensures source.files == old(source.files) && source.canonical == old(source.canonical)
      ensures source.interest == old(source.interest) && source.nextWd == old(source.nextWd)
      ensures fd >= 0 ==> forall f :: f in ts ==> ts[f].wd !in source.watches
      ensures forall w :: w in source.watches ==> w in old(source.watches) && source.watches[w] == old(source.watches)[w]
      ensures forall w :: w in old(source.watches) && (fd < 0 || forall f :: f in ts ==> ts[f].wd != w) ==>
        w in source.watches
      ensures source.capacity + |source.watches| == old(source.capacity + |source.watches|)
      ensures deleted == old(deleted) + multiset(OwnedAmong(ts, os, ts.Keys))
    {
      var pending := ts.Keys;
      while pending != {}
        invariant pending <= ts.Keys
        invariant TornDownSoFar(fd, ts, os, pending, old(deleted), old(source.watches), old(source.capacity + |source.watches|),
                                old(source.files), old(source.canonical), old(source.interest), old(source.nextWd))
        decreases pending
      {
        var f :| f in pending;
        UnwatchStep(fd, ts, os, pending, f, old(deleted), old(source.watches), old(source.capacity + |source.watches|),
                    old(source.files), old(source.canonical), old(source.interest), old(source.nextWd));
        pending := pending - {f};
      }
      assert ts.Keys - pending == ts.Keys;
    }

    /**
     * unregister_all_tasks once the loader is initialized (single-header
     * version): the source releases every registered task's watch and gets
     * its budget back, each owned task is deleted exactly once, and all three
     * maps are cleared.
     */
    method Clear(fd: int)
      requires Valid()
      modifies this`tasks, this`ownerships, this`index, this`deleted, source
      ensures Valid() && Indexed()
      ensures tasks == map[] && ownerships == map[] && index == map[]
      ensures deleted == old(deleted) + multiset(OwnedAmong(old(tasks), old(ownerships), old(tasks.Keys)))
      ensures reloads == old(reloads)
      ensures source.files == old(source.files) && source.canonical == old(source.canonical)
      ensures source.interest == old(source.interest) && source.nextWd == old(source.nextWd)
      ensures fd >= 0 ==> forall f :: f in old(tasks) ==> old(tasks)[f].wd !in source.watches
      ensures forall w :: w in source.watches ==> w in old(source.watches) && source.watches[w] == old(source.watches)[w]
      ensures forall w :: w in old(source.watches) && (fd < 0 || forall f :: f in old(tasks) ==> old(tasks)[f].wd != w) ==>
        w in source.watches
      ensures source.capacity + |source.watches| == old(source.capacity + |source.watches|)
    {
      UnwatchAll(fd, tasks, ownerships);
      tasks, ownerships, index := map[], map[], map[];
    }

    /**
     * One entry of the dispatch half of work_loop, for a descriptor `w` the
     * index knows. An invalidated watch routes its task to rewatch_task: when
     * the rewatch succeeds the task fires once and is indexed under the fresh
     * descriptor `armed`, otherwise it is left unwatched and nothing fires.
     * Any other mask fires the task's on_reload once and changes nothing
     * else. `out` is what was appended to the reload log.
     */
    method Dispatch(fd: int, w: int, mask: Mask) returns (ghost out: seq<HotLoadTask>, ghost armed: int)
      requires WatchesValid() && w in index
      modifies this`index, this`reloads, source, index[w]
      ensures WatchesValid() && (old(Indexed()) ==> Indexed())
      ensures source.files == old(source.files)
      ensures source.nextWd == old(source.nextWd) + (if old(source.nextWd) <= armed then 1 else 0)
      ensures source.capacity + |source.watches| == old(source.capacity + |source.watches|)
      ensures reloads == old(reloads) + out
      ensures Handled(out, armed, mask, old(index[w]), old(source.nextWd))
      ensures Invalidated(mask) ==> Rewatched(fd, old(index[w])) && old(index[w]).wd == armed
      ensures !Invalidated(mask) ==> unchanged(source)
      ensures Invalidated(mask) && old(RewatchSucceeds(fd, index[w])) ==>
        && armed == old(source.nextWd) && old(index[w]).wd == armed
        && index == old(index)[armed := old(index[w])] && out == [old(index[w])]
      ensures Invalidated(mask) && !old(RewatchSucceeds(fd, index[w])) ==>
        armed == -1 && old(index[w]).wd == -1 && index == old(index) && out == []
      ensures !Invalidated(mask) ==>
        armed == -1 && old(index[w]).wd == old(index[w].wd) && index == old(index) && out == [old(index[w])]
      ensures old(source.nextWd) <= armed ==> armed !in old(index) && index == old(index)[armed := old(index[w])]
      ensures armed < old(source.nextWd) ==> index == old(index)
    {
      var t := index[w];
      if Invalidated(mask) {
        RewatchTask(fd, t);
        out := reloads[|old(reloads)|..];
        armed := t.wd;
      } else {
        reloads := reloads + [t];
        out := [t];
        armed := -1;
      }
    }

    /** Progress of the dispatch pass over `masks` from `p`, on the registry's and the source's current values. */
    ghost predicate DispatchingSoFar(fd: int, masks: map<int, Mask>, p: PassStart, pending: set<int>,
                                     order: seq<int>, fired: seq<seq<HotLoadTask>>, armed: seq<int>)
      reads this, source, p.wd0.Keys
    {
      && WatchesValid()
      && source.files == p.files0 && source.canonical == p.canonical0 && source.interest == p.interest0
      && Dispatching(fd, masks, p, pending, order, fired, armed, DescriptorsOf(p.wd0.Keys), index, source.watches,
                     source.nextWd, source.capacity + |source.watches|, reloads)
    }

    /** One iteration of the dispatch loop: dispatching the pending descriptor `w`, if known, keeps the progress. */
    method DispatchStep(fd: int, masks: map<int, Mask>, w: int, ghost p: PassStart, ghost pending: set<int>,
                        ghost order: seq<int>, ghost fired: seq<seq<HotLoadTask>>, ghost armed: seq<int>)
      returns (ghost order': seq<int>, ghost fired': seq<seq<HotLoadTask>>, ghost armed': seq<int>)
      requires DispatchingSoFar(fd, masks, p, pending, order, fired, armed) && w in pending
      modifies this`index, this`reloads, source, p.wd0.Keys
      ensures DispatchingSoFar(fd, masks, p, pending - {w}, order', fired', armed')
      ensures old(Indexed()) ==> Indexed()
    {
      if w !in index {
        DispatchedSkip(masks, p.index0, p.base, pending, order, fired, armed, index, w);
        return order, fired, armed;
      }
      ghost var wds, idx, watches, next, log := DescriptorsOf(p.wd0.Keys), index, source.watches, source.nextWd, reloads;
      ghost var total := source.capacity + |source.watches|;
      assert w in p.index0 && index[w] == p.index0[w] && index[w] in p.wd0;
      ghost var out, a := Dispatch(fd, w, masks[w]);
      ghost var wds' := DescriptorsOf(p.wd0.Keys);
      forall t | t in p.wd0 && t != p.index0[w]
        ensures wds'[t] == wds[t]
      {
        assert t.wd == old(t.wd);
      }
      DispatchKeeps(fd, masks, p, pending, order, fired, armed, wds, idx, watches, next, total, log, w, out, a,
                    wds', index, source.watches, source.nextWd, source.capacity + |source.watches|, reloads);
      order', fired', armed' := order + [w], fired + [out], armed + [a];
    }

    /**
     * The dispatch loop of work_loop over the coalesced masks: every
     * descriptor the index knows is dispatched exactly once (in `order`, with
     * `fired[i]` the reload log entries for `order[i]` and `armed[i]` the
     * descriptor its rewatch obtained); unknown descriptors are skipped. The
     * index keeps every entry and gains exactly the re-armed descriptors.
     * Each fresh descriptor takes one step of the allocator and one watch
     * released by its rewatch, if it held one, or one unit of budget. A
     * watch no rewatched task held stays as it was, a watch a rewatched task
     * held is released, and every new watch is a fresh descriptor on the
     * file of the task the index maps it to.
     */
    method DispatchAll(fd: int, masks: map<int, Mask>)
      returns (ghost order: seq<int>, ghost fired: seq<seq<HotLoadTask>>, ghost armed: seq<int>)
      requires WatchesValid()
      requires forall w :: w in masks ==> w < source.nextWd
      modifies this`index, this`reloads, source, index.Values
      ensures WatchesValid() && (old(Indexed()) ==> Indexed())
      ensures source.files == old(source.files) && source.canonical == old(source.canonical)
      ensures source.interest == old(source.interest)
      ensures DispatchedSoFar(masks, old(index), old(source.nextWd), {}, order, fired, armed, index)
      ensures reloads == old(reloads) + Flatten(fired)
      ensures forall t :: t in old(index.Values) ==>
        t.wd == Rewired(old(TaskDescriptors()), masks, old(index), order, armed)[t]
      ensures source.nextWd == old(source.nextWd) + Granted(armed, old(source.nextWd))
      ensures source.capacity + |source.watches| == old(source.capacity + |source.watches|)
      ensures forall w ::
        (w in old(source.watches) && forall t :: t in old(index.Values) && old(t.wd) == w ==> Rewatchless(masks, old(index), order, t)) ==>
        w in source.watches && source.watches[w] == old(source.watches)[w]
      ensures forall t ::
        (t in old(index.Values) && old(t.wd) in old(source.watches) && fd >= 0 && !Rewatchless(masks, old(index), order, t)) ==>
        old(t.wd) !in source.watches
      ensures forall w :: w in source.watches && w !in old(source.watches) ==>
        old(source.nextWd) <= w && w in armed && w in index && source.watches[w] == Watch(index[w].file, WatchEventMask)
    {
      ghost var p := PassStart(TaskDescriptors(), index, source.watches, reloads, source.files, source.canonical,
                               source.interest, source.nextWd, source.capacity + |source.watches|);
      var pending := masks.Keys;
      order, fired, armed := [], [], [];
      while pending != {}
        invariant DispatchingSoFar(fd, masks, p, pending, order, fired, armed)
        invariant old(Indexed()) ==> Indexed()
        modifies this`index, this`reloads, source, p.wd0.Keys
        decreases pending
      {
        // A non-empty set of descriptors has one to dispatch next.
        if forall v :: v !in pending {
          assert false;
        }
        var w :| w in pending;
        order, fired, armed := DispatchStep(fd, masks, w, p, pending, order, fired, armed);
        pending := pending - {w};
      }
      // The old descriptors of the tasks are the ones recorded at the start.
      forall w | w in old(source.watches) && forall t :: t in old(index.Values) && old(t.wd) == w ==> Rewatchless(masks, old(index), order, t)
        ensures Spared(masks, old(index), order, p.wd0, w)
      {
      }
      forall w | w in source.watches && w !in old(source.watches)
        ensures w in armed
      {
        assert w in index && w !in old(index);
      }
    }

    /**
     * The dispatch half of work_loop for one wake-up: the raw records are
     * folded into one mask per descriptor, and each descriptor they mention
     * that the index knows is dispatched exactly once, with the mask
     * accumulated for it. At most one on_reload fires per known descriptor;
     * the index keeps every entry and gains exactly the descriptors that
     * rewatches obtained, each under its task.
     */
    method HandleEvents(fd: int, records: seq<Record>)
      returns (ghost order: seq<int>, ghost fired: seq<seq<HotLoadTask>>, ghost armed: seq<int>)
      requires WatchesValid()
      requires forall i :: 0 <= i < |records| ==> records[i].wd < source.nextWd
      modifies this`index, this`reloads, source, index.Values
      ensures WatchesValid() && (old(Indexed()) ==> Indexed())
      ensures Distinct(order)
      ensures forall w :: w in order <==> Mentions(records, w) && w in old(index)
      ensures |fired| == |order| && |armed| == |order|
      ensures forall i :: 0 <= i < |order| ==>
        && order[i] in old(index)
        && Handled(fired[i], armed[i], MaskOf(Coalesce(records), order[i]), old(index)[order[i]], old(source.nextWd))
      ensures reloads == old(reloads) + Flatten(fired)
      ensures |reloads| - |old(reloads)| <= |order|
      ensures forall w :: w in index <==> w in old(index) || (old(source.nextWd) <= w && w in armed)
      ensures forall w :: w in old(index) ==> w in index && index[w] == old(index)[w]
      ensures forall i :: 0 <= i < |order| && old(source.nextWd) <= armed[i] ==>
        armed[i] in index && order[i] in old(index) && index[armed[i]] == old(index)[order[i]]
      ensures source.files == old(source.files) && source.canonical == old(source.canonical)
      ensures source.interest == old(source.interest)
      ensures forall t :: t in old(index.Values) && Rewatchless(Coalesce(records), old(index), order, t) ==> t.wd == old(t.wd)
      ensures forall i ::
        (&& 0 <= i < |order| && Rewatches(Coalesce(records), old(index), order, i, old(index)[order[i]])
         && forall j :: i < j < |order| ==> !Rewatches(Coalesce(records), old(index), order, j, old(index)[order[i]])) ==>
        old(index)[order[i]].wd == armed[i]
      ensures source.nextWd == old(source.nextWd) + Granted(armed, old(source.nextWd))
      ensures source.capacity + |source.watches| == old(source.capacity + |source.watches|)
      ensures forall w ::
        (&& w in old(source.watches)
         && forall t :: t in old(index.Values) && old(t.wd) == w ==> Rewatchless(Coalesce(records), old(index), order, t)) ==>
        w in source.watches && source.watches[w] == old(source.watches)[w]
      ensures forall t ::
        (&& t in old(index.Values) && old(t.wd) in old(source.watches) && fd >= 0
         && !Rewatchless(Coalesce(records), old(index), order, t)) ==>
        old(t.wd) !in source.watches
      ensures forall w :: w in source.watches && w !in old(source.watches) ==>
        old(source.nextWd) <= w && w in armed && w in index && source.watches[w] == Watch(index[w].file, WatchEventMask)
    {
      var masks := CoalesceEvents(records);
      forall w | w in masks
        ensures w < source.nextWd
      {
        var i :| 0 <= i < |records| && records[i].wd == w;
      }
      ghost var wd0 := TaskDescriptors();
      order, fired, armed := DispatchAll(fd, masks);
      forall i | 0 <= i < |fired|
        ensures |fired[i]| <= 1
      {
        assert Handled(fired[i], armed[i], masks[order[i]], old(index)[order[i]], old(source.nextWd));
      }
      FlattenAtMostOneEach(fired);
      // The descriptors the dispatch pass left are those of the last rewatch of each task.
      forall t | t in old(index.Values) && Rewatchless(masks, old(index), order, t)
        ensures t.wd == old(t.wd)
      {
        RewiredUntouched(wd0, masks, old(index), order, armed, t);
      }
      forall i | && 0 <= i < |order| && Rewatches(masks, old(index), order, i, old(index)[order[i]])
                 && forall j :: i < j < |order| ==> !Rewatches(masks, old(index), order, j, old(index)[order[i]])
        ensures old(index)[order[i]].wd == armed[i]
      {
        var t := old(index)[order[i]];
        assert t in old(index.Values);
        assert t.wd == Rewired(wd0, masks, old(index), order, armed)[t];
        RewiredLast(wd0, masks, old(index), order, armed, i, t);
      }
    }
  }
}
