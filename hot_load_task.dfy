/** HotLoadTask: what a caller hands to the loader, one file and its reload hook. */
module Tasks {
  import opened Inotify

  class HotLoadTask {
    /** The normalized path, fixed at construction (watch_file()). */
    const file: string
    /** The inotify watch descriptor, -1 while unwatched. */
    var wd: int

    /** A task for `path`: its file is the normalized path, and it starts unwatched. */
    constructor (path: string, source: NotificationSource)
      ensures file == source.Normalize(path)
      ensures wd == -1
    {
      file := source.Normalize(path);
      wd := -1;
    }

    /** set_watch_descriptor: only the descriptor changes; `file` is a constant. */
    method SetWatchDescriptor(w: int)
      modifies this
      ensures wd == w
    {
      wd := w;
    }
  }
}
