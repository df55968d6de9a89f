/**
 * The notification source the loaders call into: the inotify instance (watch
 * descriptors handed out and removed), the epoll interest list, and the part of
 * the file system the loaders look at (which files exist, and what a path
 * normalizes to). Everything here stands for kernel state; the loaders never
 * change `files` or `canonical`.
 */
module Inotify {

  /** A bit position of a 32-bit inotify event mask. */
  type Bit = b: nat | b < 32

  /**
   * A 32-bit inotify event mask, as the set of its set bits: `m1 | m2` is
   * `m1 + m2` and `m & IN_IGNORED != 0` is `IN_IGNORED_BIT in m`.
   */
  type Mask = set<Bit>

  /** inotify event bits, as in <sys/inotify.h>: IN_CLOSE_WRITE is 0x8, IN_IGNORED is 0x8000. */
  const IN_CLOSE_WRITE_BIT: Bit := 3
  const IN_IGNORED_BIT: Bit := 15
  const IN_CLOSE_WRITE: Mask := {IN_CLOSE_WRITE_BIT}
  const IN_IGNORED: Mask := {IN_IGNORED_BIT}

  /** errno values returned by epoll_ctl. */
  const EBADF: int := 9
  const EEXIST: int := 17

  /** A watch held by the kernel: the file it is on and the events it reports. */
  datatype Watch = Watch(path: string, mask: Mask)

  /**
   * What normalize_path can map paths to: "" names no file and normalizes to
   * "", every normal form is an existing file, and normalizing a normal form
   * changes nothing.
   */
  ghost predicate NormalForms(files: set<string>, canonical: map<string, string>) {
    && "" !in files && "" !in canonical
    && forall p :: p in canonical ==>
         && canonical[p] != "" && canonical[p] in files
         && canonical[p] in canonical && canonical[canonical[p]] == canonical[p]
  }

  class NotificationSource {
    /** Regular files that currently exist. */
    var files: set<string>
    /** What normalize_path makes of a path; a path that is not here normalizes to "". */
    var canonical: map<string, string>
    /** Live watches, by watch descriptor. */
    var watches: map<int, Watch>
    /** The descriptor the next successful inotify_add_watch hands out. */
    var nextWd: int
    /** How many more watches the kernel grants before refusing with ENOSPC. */
    var capacity: nat
    /** The epoll interest list: (epoll fd, watched fd) pairs added with EPOLL_CTL_ADD. */
    var interest: set<(int, int)>

    ghost predicate Valid()
      reads this
    {
      && 1 <= nextWd
      && (forall w :: w in watches ==> 1 <= w < nextWd)
      && NormalForms(files, canonical)
    }

    constructor (files: set<string>, canonical: map<string, string>, capacity: nat)
      requires NormalForms(files, canonical)
      ensures Valid()
      ensures this.files == files && this.canonical == canonical && this.capacity == capacity
      ensures watches == map[] && nextWd == 1 && interest == {}
    {
      this.files := files;
      this.canonical := canonical;
      this.capacity := capacity;
      watches := map[];
      nextWd := 1;
      interest := {};
    }

    /**
     * HotLoadTask::normalize_path: the canonical form of an existing regular
     * file, or "" when the path does not name one.
     */
    function Normalize(path: string): (p: string)
      reads this
      ensures Valid() && p != "" ==> p in files && p in canonical && canonical[p] == p
      ensures Valid() && path == "" ==> p == ""
    {
      if path in canonical then canonical[path] else ""
    }

    /** Whether inotify_add_watch(fd, path, ...) succeeds in this state. */
    ghost predicate Admits(fd: int, path: string)
      reads this
    {
      fd >= 0 && path in files && capacity > 0
    }

    /** Whether inotify_rm_watch(fd, wd) removes a live watch in this state. */
    ghost predicate Holds(fd: int, wd: int)
      reads this
    {
      fd >= 0 && wd in watches
    }

    /** Whether epoll_ctl(epfd, EPOLL_CTL_ADD, fd, ...) succeeds in this state. */
    ghost predicate EpollAccepts(epfd: int, fd: int)
      reads this
    {
      epfd >= 0 && fd >= 0 && (epfd, fd) !in interest
    }

    /** std::filesystem::exists. */
    method Exists(path: string) returns (b: bool)
      ensures b <==> path in files
    {
      b := path in files;
    }

    /**
     * inotify_add_watch: a fresh descriptor on success; -1 for a bad
     * descriptor, a missing file (ENOENT) or an exhausted watch budget (ENOSPC).
     */
    method AddWatch(fd: int, path: string, mask: Mask) returns (wd: int)
      requires Valid()
      modifies this
      ensures Valid()
      ensures files == old(files) && canonical == old(canonical) && interest == old(interest)
      ensures old(Admits(fd, path)) ==>
        && wd == old(nextWd) && nextWd == wd + 1
        && watches == old(watches)[wd := Watch(path, mask)]
        && capacity == old(capacity) - 1
      ensures !old(Admits(fd, path)) ==> wd == -1 && unchanged(this)
    {
      if fd >= 0 && path in files && capacity > 0 {
        wd := nextWd;
        nextWd := nextWd + 1;
        watches := watches[wd := Watch(path, mask)];
        capacity := capacity - 1;
      } else {
        wd := -1;
      }
    }

    /**
     * The effect of inotify_rm_watch(fd, wd): a live watch leaves the source
     * and its unit of budget comes back; in any other case nothing changes.
     * Files, normal forms, the epoll interest list and the allocator stay.
     */
    twostate predicate Released(fd: int, wd: int)
      reads this
    {
      && files == old(files) && canonical == old(canonical) && interest == old(interest)
      && nextWd == old(nextWd)
      && watches == (if old(Holds(fd, wd)) then old(watches) - {wd} else old(watches))
      && capacity == old(capacity) + (if old(Holds(fd, wd)) then 1 else 0)
    }

    /** inotify_rm_watch: removes a live watch; on anything else it fails and changes nothing. */
    method RemoveWatch(fd: int, wd: int)
      requires Valid()
      modifies this
      ensures Valid() && Released(fd, wd)
      ensures capacity + |watches| == old(capacity + |watches|)
      ensures files == old(files) && canonical == old(canonical) && interest == old(interest)
      ensures nextWd == old(nextWd)
      ensures old(Holds(fd, wd)) ==> watches == old(watches) - {wd} && capacity == old(capacity) + 1
      ensures !old(Holds(fd, wd)) ==> unchanged(this)
    {
      if fd >= 0 && wd in watches {
        watches := watches - {wd};
        capacity := capacity + 1;
      }
    }

    /** epoll_ctl(epfd, EPOLL_CTL_ADD, fd): 0, EBADF, or EEXIST when fd is already in the interest list. */
    method EpollAdd(epfd: int, fd: int) returns (err: int)
      requires Valid()
      modifies this
      ensures Valid()
      ensures files == old(files) && canonical == old(canonical)
      ensures watches == old(watches) && nextWd == old(nextWd) && capacity == old(capacity)
      ensures err == 0 <==> old(EpollAccepts(epfd, fd))
      ensures err == 0 ==> interest == old(interest) + {(epfd, fd)}
      ensures err != 0 ==> interest == old(interest)
      ensures err == EEXIST <==> epfd >= 0 && fd >= 0 && (epfd, fd) in old(interest)
      ensures err == EBADF <==> epfd < 0 || fd < 0
    {
      if epfd < 0 || fd < 0 {
        err := EBADF;
      } else if (epfd, fd) in interest {
        err := EEXIST;
      } else {
        interest := interest + {(epfd, fd)};
        err := 0;
      }
    }
  }
}
