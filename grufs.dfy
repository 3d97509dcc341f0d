/** The `GRUFS` object: the index snapshot it serves, the mount point it
    captured, and the two places that publish a snapshot, `fsinit` and the
    bookmark watcher. The watcher's blocking read and its endless loop stay
    outside; one call of `WatchBatch` is one turn of that loop, given the
    batch of event names the read returned. */
module Grufs {
  import opened Wrappers
  import opened PosixPath
  import opened RecentIndex
  import Builder

  /** The file name of the bookmark file, `RU_PATH.name`. */
  const BookmarkFileName: string := "recently-used.xbel"

  class GruFs {
    /** The published snapshot, replaced as a whole. */
    var directories: Index
    /** The mount point, captured by `fsinit` (the empty relative path before). */
    var mountpoint: Path
    /** The watcher thread has been started and has not died of an exception. */
    var watcherRunning: bool

    /** Every snapshot is a well-formed dict whose links point at directories
        outside the mount point and are named after them. */
    ghost predicate Valid()
      reads this
    {
      && RecentIndex.Valid(directories)
      && forall n :: n in directories.entries ==>
           && WellFormed(directories.entries[n].target)
           && !IsRelativeTo(directories.entries[n].target, mountpoint)
           && n == Builder.DeriveName(directories.entries[n].target)
    }

    /** `__init__`: the index starts out empty. */
    constructor ()
      ensures Valid()
      ensures directories == Empty && mountpoint == [] && !watcherRunning
    {
      directories := Empty;
      mountpoint := [];
      watcherRunning := false;
    }

    /** `fsinit`: captures the mount point, builds the first index and starts
        the watcher. When the build raises, the exception leaves `fsinit`
        before the index is assigned or the watcher started. */
    method FsInit(mountArg: string, file: Builder.BookmarkFile, host: Builder.Host) returns (raised: Option<BuildError>)
      requires Valid() && directories == Empty && !watcherRunning
      modifies this
      ensures Valid()
      ensures mountpoint == Parse(mountArg)
      ensures Builder.Build(file, mountpoint, host).Ok? ==>
        directories == Builder.Build(file, mountpoint, host).value && watcherRunning && raised == None
      ensures Builder.Build(file, mountpoint, host).Err? ==>
        directories == old(directories) && !watcherRunning && raised == Some(Builder.Build(file, mountpoint, host).error)
    {
      mountpoint := Parse(mountArg);
      var r := Builder.ReadRecentDirs(file, mountpoint, host);
      match r
      case Err(e) =>
        return Some(e);
      case Ok(idx) =>
        Builder.BuiltEntriesAreSafe(file, mountpoint, host);
        directories := idx;
        watcherRunning := true;
        return None;
    }

    /** One turn of the watcher loop: the batch is relevant when some event
        names the bookmark file, and then the index is rebuilt from the
        current file for the captured mount point and replaces the old one
        outright. A build that raises ends the watcher and leaves the last
        snapshot in place. */
    method WatchBatch(eventNames: seq<string>, file: Builder.BookmarkFile, host: Builder.Host)
      returns (modified: bool, raised: Option<BuildError>)
      requires Valid() && watcherRunning
      modifies this`directories, this`watcherRunning
      ensures Valid()
      ensures modified <==> exists i :: 0 <= i < |eventNames| && eventNames[i] == BookmarkFileName
      ensures !modified ==> directories == old(directories) && watcherRunning && raised == None
      ensures modified && Builder.Build(file, mountpoint, host).Ok? ==>
        directories == Builder.Build(file, mountpoint, host).value && watcherRunning && raised == None
      ensures modified && Builder.Build(file, mountpoint, host).Err? ==>
        directories == old(directories) && !watcherRunning && raised == Some(Builder.Build(file, mountpoint, host).error)
    {
      modified := false;
      for i := 0 to |eventNames|
        invariant modified <==> exists j :: 0 <= j < i && eventNames[j] == BookmarkFileName
      {
        if eventNames[i] == BookmarkFileName {
          modified := true;
        }
      }
      raised := None;
      if modified {
        var r := Builder.ReadRecentDirs(file, mountpoint, host);
        match r
        case Err(e) =>
          watcherRunning := false;
          raised := Some(e);
        case Ok(idx) =>
          Builder.BuiltEntriesAreSafe(file, mountpoint, host);
          directories := idx;
      }
    }
  }
}
