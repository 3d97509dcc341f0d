# gtkrufs, modelled in Dafny

gtkrufs is a read-only FUSE file system. Its root directory holds one
symbolic link for each directory that appears in the desktop's
recently-used bookmark list (`recently-used.xbel`). Each link is named
after the trailing components of the directory it points to.

This project models the core of `gtkrufs.py`:

- **Building the index** (`GRUFS._read_recent_dirs`).
  - Module `Builder` models it as a loop (`ReadRecentDirs`) proved equal to
    a specification function (`Build`).
  - `Build` classifies each bookmark (`Classify`) and folds the results into
    a dict that remembers key order (module `RecentIndex`).
  - The pathlib operations the loop relies on are modelled on
    `PurePosixPath.parts`: `Path(s)`, `str(p)`, `parent`, `parents` and
    `is_relative_to` (module `PosixPath`).
  - So are the string operations it relies on: `split`, `join`,
    `replace` and slicing (module `Text`).
- **The three queries**, in module `Queries`.
  - `getattr`, `readdir` and `readlink` are total functions over one
    snapshot of the index.
  - A failure is the negative errno the handler returns.
- **The `GRUFS` object**, as class `Grufs.GruFs`.
  - It holds the published snapshot, the captured mount point and whether
    the watcher thread is alive.
  - `FsInit` models `fsinit`.
  - `WatchBatch` models one turn of the watcher loop for one batch of
    inotify event names.
  - Both keep a class invariant: every published link points at a
    well-formed directory outside the mount point and carries the name
    derived from that directory.
- **One end-to-end example** (module `Scenarios`): one bookmark, followed
  through the build and all three queries.

Where the code does something other than what it evidently intends, or
where its behaviour is easy to misread, the model follows the code:

- **Link names.** The name is built from the last four `parts` of the
  directory, minus the first of them, reversed and joined with `_`. For an
  absolute directory at least three levels deep that is its last three
  components, so `/home/alice/projects/widget` gives `widget_projects_alice`
  (`Builder.NameFromLastThreeComponents`, `Scenarios.WidgetDirIsNamed`). Every
  `file://` is removed before the rest is parsed, so a reference with a host
  part, such as `file://h/a/f`, gives the relative directory `h/a`; for a
  relative directory the dropped first part is a real component, so its
  name loses that component.
- **The root directory.** The root is meant to be skipped, but the code
  compares a `Path` with the string `"/"`, and that comparison is never
  true. So a file directly under `/` yields the link name `""` pointing at
  `/` (`Scenarios.RootLevelBookmarkIsKept`). That link is listed but can never
  be looked up, because a requested name is always a single non-empty path
  component (`Queries.RequestedName`).
- **Listing a non-root path.** `readdir` on a path other than the root is
  a generator that returns before yielding anything. Its caller sees an
  empty listing, not ENOENT.
- **Link size.** The link's size is `len(str(target))`, which counts code
  points, not bytes.
- **Unreadable timestamps.** A visit time that `fromisoformat` rejects
  raises out of the whole build. Skipping that one bookmark would be a
  different behaviour.

## Model

| member | source | states |
|---|---|---|
| Text.ReplaceAbsent | gtkrufs.py:84 | `str.replace` returns its input when the pattern does not occur in it |
| Text.ReplaceAfter | gtkrufs.py:84 | replacing a one-character pattern leaves a prefix free of it unchanged, so only the trailing `Z` of a time is rewritten |
| Text.Split | gtkrufs.py:74 | `str.split` on one character gives at least one piece, none containing the separator, and `[""]` for the empty string |
| Text.SplitJoin | gtkrufs.py:74 | splitting pieces joined by a separator they do not contain gives the pieces back |
| Text.TakeLast | gtkrufs.py:82 | for n ≥ 1, `s[-n:]` has length min(n, len s) and holds the last elements of `s` in order |
| Text.Reverse | gtkrufs.py:82 | `s[::-1]` has the same length as `s` and holds its elements in reverse order |
| PosixPath.Parse | gtkrufs.py:74 | `Path(s).parts` is well formed, and is absolute exactly when the string starts with a slash |
| PosixPath.Parent | gtkrufs.py:74 | `parent` keeps well-formedness and absoluteness, is a prefix of the path, is the path itself exactly at the anchor, and otherwise drops one component |
| PosixPath.RelativeToIsPrefix | gtkrufs.py:77 | `is_relative_to(base)` holds exactly when `base` is a component-wise prefix of the path that keeps its whole anchor |
| PosixPath.ParseStr | gtkrufs.py:129-151 | `Path(str(p)) == p` for every well-formed path, so the string that `readlink` returns names the stored directory |
| PosixPath.StrInjective | gtkrufs.py:151 | two well-formed paths with the same string are the same path |
| RecentIndex.Insert | gtkrufs.py:85-86 | the dict update: a new name is appended to the key order with its entry; an existing name is replaced only by a strictly later visit and keeps its place; every other key and value is unchanged; the dict stays duplicate-free |
| RecentIndex.Step | gtkrufs.py:67-86 | one loop turn keeps the dict well formed, and fails exactly on a bookmark whose time cannot be read |
| RecentIndex.Fold | gtkrufs.py:65-88 | a completed loop yields a well-formed dict |
| RecentIndex.FoldSingleAccepted | gtkrufs.py:85-86 | one accepted bookmark gives a one-key dict |
| RecentIndex.FoldKeys | gtkrufs.py:65-88 | a completed loop met no unreadable time, and its keys are exactly the names some accepted bookmark derived |
| RecentIndex.FoldChoosesLatest | gtkrufs.py:85-86 | each key holds the entry of a bookmark with that name visited no earlier than any other, and the first such bookmark on a tie |
| RecentIndex.FoldKeepsFirstSeenOrder | gtkrufs.py:85-86 | the dict lists its keys in the order their names first appeared, each once |
| RecentIndex.FoldFailsOnFirstMalformed | gtkrufs.py:84 | the loop raises exactly when some bookmark has an unreadable time, and reports the first one |
| RecentIndex.FailureIsFinal | gtkrufs.py:84 | once the loop has raised, later bookmarks change nothing |
| RecentIndex.SkippedIsInvisible | gtkrufs.py:71-80 | a bookmark that is passed over can be removed without changing the result |
| RecentIndex.AllSkippedIsEmpty | gtkrufs.py:65-88 | when every bookmark is passed over the result is the empty dict |
| Builder.CandidateDir | gtkrufs.py:74 | the directory derived from a `file://` reference is a well-formed path |
| Builder.Classify | gtkrufs.py:67-84 | a bookmark is passed over exactly when an attribute is missing or empty, the scheme is not `file://`, or its directory is under the mount point or missing; otherwise an unreadable time is an error, and a readable one gives the directory, its derived name and the time |
| Builder.Record | gtkrufs.py:85-86 | the in-place dict update performs exactly `Insert` |
| Builder.ReadRecentDirs | gtkrufs.py:58-88 | the loop returns exactly `Build`: the empty dict when the file is missing, and otherwise the fold of the classified bookmarks, or the first bad-time error |
| Builder.NoUsableBookmarkGivesEmptyIndex | gtkrufs.py:59-80 | with no file, or with no bookmark that passes the filters, the index is empty |
| Builder.BuiltEntriesAreSafe | gtkrufs.py:74-86 | every stored link points at an existing, well-formed directory that is neither the mount point nor below it, is named after it, and comes from a local-file bookmark whose time it stores |
| Builder.BuildKeysAreAcceptedNames | gtkrufs.py:67-86 | a successful build saw no unreadable time among the filtered bookmarks, and its keys are exactly the names those bookmarks derive |
| Builder.BuildSelectsLatest | gtkrufs.py:85-86 | under each name the build keeps the entry of a bookmark visited no earlier than any other with that name, the first one in the document on a tie |
| Builder.BuildKeepsFirstSeenOrder | gtkrufs.py:85-86 | the dict's key order, and so the listing order, is the order in which names first occur in the document |
| Builder.BuildFailsOnFirstBadTime | gtkrufs.py:84 | the build raises exactly when a bookmark that passes the filters has an unreadable time; the error carries the first such time; a bad time on a skipped bookmark is harmless |
| Builder.NameFromLastThreeComponents | gtkrufs.py:82 | for an absolute directory the name is its last three components (or all, if fewer) reversed and joined with `_`; the anchor never takes part |
| Builder.NameIsComponent | gtkrufs.py:82 | the name is empty exactly when the directory has at most one part (`/`, `//`, `.` or a one-component relative path), and otherwise is a single path component |
| Scenarios.WidgetDirIsNamed | gtkrufs.py:82 | `/home/alice/projects/widget` is named `widget_projects_alice` |
| Scenarios.RootLevelBookmarkIsKept | gtkrufs.py:74-82 | a bookmark for `/notes.txt` is accepted, with directory `/` and the empty name |
| Queries.RequestedName | gtkrufs.py:119-123 | the name asked for by a two-part request path is a single path component |
| Queries.GetAttr | gtkrufs.py:112-131 | the root is a directory with mode 0755 and two links; any request path that parses to exactly two parts, the second a known name, is a link with mode 0777, one link, the length of its target's string as size and the stored visit time, and a found link always has such a name; everything else is ENOENT |
| Queries.ReadDir | gtkrufs.py:134-141 | the root lists two more entries than the index has keys; any other path lists nothing |
| Queries.ReadLink | gtkrufs.py:144-153 | any request path that parses to exactly two parts, the second a known name, resolves to the string of its stored directory, and a resolved path always has such a name; everything else is ENOENT |
| Queries.ListingNamesEachKeyOnce | gtkrufs.py:138-141 | the root listing is `.` and `..`, then the keys of the index as links in the dict's key order, each once, and nothing else |
| Queries.AttrAgreesWithReadLink | gtkrufs.py:119-153 | away from the root, `getattr` finds a link exactly when `readlink` does, and its size is the length of the string `readlink` returns |
| Queries.ListedLinksResolve | gtkrufs.py:119-151 | a key that is a path component, asked for under the root, gives its link stat and its target string |
| Queries.ResolvedLinksAreListed | gtkrufs.py:140-151 | every name that `readlink` resolves appears in the root listing as a link |
| Queries.BuiltLinksResolve | gtkrufs.py:82-153 | every non-empty name of a built index resolves through `getattr` and `readlink` to its stored directory and time |
| Queries.NoUsableBookmarkListsOnlyDots | gtkrufs.py:134-141 | with no usable bookmark the root lists exactly `.` and `..`, and is still a directory |
| Grufs.GruFs.constructor | gtkrufs.py:53-55 | a new file system starts with the empty index and no watcher |
| Grufs.GruFs.FsInit | gtkrufs.py:90-95 | the mount point is captured; a successful build is published and the watcher started; a raising build leaves the index empty and starts nothing; the class invariant holds afterwards |
| Grufs.GruFs.WatchBatch | gtkrufs.py:97-109 | a batch is relevant exactly when some event names `recently-used.xbel`; an irrelevant batch changes nothing; a relevant one replaces the index with a fresh build for the captured mount point, or, if that build raises, keeps the old index and ends the watcher; the class invariant holds throughout |
| Scenarios.UtcVisitTime | gtkrufs.py:84 | `2024-01-01T12:00:00Z` is read as `2024-01-01T12:00:00+00:00` |
| Scenarios.WidgetBuild | gtkrufs.py:67-88 | one bookmark for `/home/alice/projects/widget/file.txt` with mount point `/mnt/recent` gives a one-entry index named `widget_projects_alice` |
| Scenarios.WidgetScenario | gtkrufs.py:112-153 | for that index, `readlink` gives `/home/alice/projects/widget`, `getattr` gives a link whose size is that string's length and whose time is the visit time, and the root lists `.`, `..` and the link |

## Left out

- XML parsing (`ET.parse`, `findall`, `get`) is not modelled. The document
  is given as its sequence of `bookmark` elements with optional `href` and
  `visited` attributes. A document that cannot be read or parsed, which
  would raise, is not represented: for example, one that is unreadable, or
  that vanishes between the existence test and the parse.
- `unquote`, `datetime.fromisoformat` and `Path.exists` are calls into
  libraries and the file system. They are parameters (the `Host` value),
  and a raising `fromisoformat` is its `None` result. The existence test
  reads the file system at build time, so the class invariant does not
  claim that linked directories still exist later.
- An `exists` call that raises is not modelled. `Path.exists` re-raises an
  `OSError` other than "not found" (for example a `PermissionError` under an
  unreadable parent), which would abort the whole build like a bad time.
  The model's existence test always answers yes or no.
- Timestamps are whole seconds since the epoch. The model does not cover
  sub-second precision, the truncation of `int(timestamp())`, or the
  `TypeError` Python raises when a naive and an aware time are compared
  under one name.
- The location of the bookmark file under the home directory is not
  modelled: the file is given as `Missing` or `Present`.
- The `inotify` watch, the blocking read, the endless loop and the thread
  are not modelled. `WatchBatch` is one loop turn given the batch of event
  names. Concurrency between the watcher and the query handlers is not
  modelled: each query reads one snapshot, and a snapshot is replaced as a
  whole.
- The FUSE plumbing (`main`, argument parsing, `Direntry` objects) and the
  `log_error` decorator are left out. The decorator only prints a trace
  and re-raises.
- The stat fields the handlers never set (inode, device, owner, group,
  access and change times) are always 0 and are left out of `Stat`.
- Before `fsinit` runs, the mount point attribute does not exist. The
  model starts it as the empty relative path.
- Grufs.GruFs.FsInit: requires a fresh object (empty index, no watcher),
  because FUSE calls `fsinit` once. A second call is not modelled.
- Grufs.GruFs.WatchBatch: requires a running watcher, because the loop
  only runs in the thread that `fsinit` starts.
