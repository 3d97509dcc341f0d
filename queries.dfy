/** The three read-only file-system operations, `getattr`, `readdir` and
    `readlink`, answered from one snapshot of the recent-directory index.
    Request paths arrive as strings; a failure is the negative errno the
    operation returns. */
module Queries {
  import opened Wrappers
  import opened Text
  import opened PosixPath
  import opened RecentIndex
  import Builder

  const ENOENT: int := 2

  /** `stat.S_IFDIR` (0o040000) and `stat.S_IFLNK` (0o120000). */
  const S_IFDIR: int := 16384
  const S_IFLNK: int := 40960

  /** `S_IFDIR | 0o755` and `S_IFLNK | 0o777`; the permission bits do not
      overlap the type bits, so the bitwise or is a sum. */
  const DirMode: int := S_IFDIR + 493
  const LinkMode: int := S_IFLNK + 511

  /** The fields of the stat record that the operations set; the others
      (inode, device, owner, group, access and change times) stay 0. */
  datatype Stat = Stat(mode: int, nlink: int, size: int, mtime: int)

  const RootStat: Stat := Stat(DirMode, 2, 0, 0)

  /** An operation's answer: a value, or a negative errno. */
  datatype Reply<T> = Value(value: T) | Errno(code: int)

  /** A directory entry as `readdir` yields it: a name and a file type. */
  datatype DirEntry = DirEntry(name: string, kind: int)

  /** The link a request path asks for: the second of its `Path(path).parts`
      when there are exactly two. Such a name is always one path component,
      so it is never empty. */
  function RequestedName(path: string): (r: Option<string>)
    ensures r.Some? ==> IsComponent(r.value)
  {
    var parts := Parse(path);
    if |parts| != 2 then None else Some(parts[1])
  }

  /** `getattr`. */
  function GetAttr(idx: Index, path: string): (r: Reply<Stat>)
    ensures path == "/" ==> r == Value(RootStat)
    ensures r.Errno? ==> r.code == -ENOENT
    ensures r.Value? && path != "/" ==>
      && RequestedName(path).Some?
      && RequestedName(path).value in idx.entries
      && r.value.mode == LinkMode && r.value.nlink == 1
      && r.value.mtime == idx.entries[RequestedName(path).value].visited
    ensures path != "/" && RequestedName(path).Some? && RequestedName(path).value in idx.entries ==>
      r == Value(Stat(LinkMode, 1, |Str(idx.entries[RequestedName(path).value].target)|,
                      idx.entries[RequestedName(path).value].visited))
  {
    if path == "/" then Value(RootStat)
    else
      match RequestedName(path)
      case None => Errno(-ENOENT)
      case Some(name) =>
        if name !in idx.entries then Errno(-ENOENT)
        else
          var e := idx.entries[name];
          Value(Stat(LinkMode, 1, |Str(e.target)|, e.visited))
  }

  /** `readdir`: for the root, "." and ".." and then one link per key in the
      dict's key order. Any other path ends the generator before its first
      entry, so nothing is listed. */
  function ReadDir(idx: Index, path: string): (r: seq<DirEntry>)
    ensures path != "/" ==> r == []
    ensures path == "/" ==> |r| == |idx.order| + 2
  {
    if path != "/" then []
    else
      [DirEntry(".", S_IFDIR), DirEntry("..", S_IFDIR)]
      + seq(|idx.order|, i requires 0 <= i < |idx.order| => DirEntry(idx.order[i], S_IFLNK))
  }

  /** `readlink`. */
  function ReadLink(idx: Index, path: string): (r: Reply<string>)
    ensures r.Errno? ==> r.code == -ENOENT
    ensures r.Value? ==>
      RequestedName(path).Some? && RequestedName(path).value in idx.entries
      && r.value == Str(idx.entries[RequestedName(path).value].target)
    ensures RequestedName(path).Some? && RequestedName(path).value in idx.entries ==>
      r == Value(Str(idx.entries[RequestedName(path).value].target))
  {
    match RequestedName(path)
    case None => Errno(-ENOENT)
    case Some(name) =>
      if name in idx.entries then Value(Str(idx.entries[name].target)) else Errno(-ENOENT)
  }

  /** The root listing starts with "." and "..", then names each key of the
      index exactly once, as a link, and nothing else. */
  lemma ListingNamesEachKeyOnce(idx: Index)
    requires Valid(idx)
    ensures var r := ReadDir(idx, "/");
      && r[0] == DirEntry(".", S_IFDIR) && r[1] == DirEntry("..", S_IFDIR)
      && (forall k :: 0 <= k < |idx.order| ==> r[k + 2] == DirEntry(idx.order[k], S_IFLNK))
      && (forall k :: 2 <= k < |r| ==> r[k].kind == S_IFLNK && r[k].name in idx.entries)
      && (forall n :: n in idx.entries ==> exists k :: 2 <= k < |r| && r[k].name == n)
      && (forall k1, k2 :: 2 <= k1 < k2 < |r| ==> r[k1].name != r[k2].name)
  {
    var r := ReadDir(idx, "/");
    RootListingEntries(idx);
    forall n | n in idx.entries ensures exists k :: 2 <= k < |r| && r[k].name == n {
      var i :| 0 <= i < |idx.order| && idx.order[i] == n;
      assert r[i + 2].name == n;
    }
  }

  lemma RootListingEntries(idx: Index)
    ensures |ReadDir(idx, "/")| == |idx.order| + 2
    ensures ReadDir(idx, "/")[0] == DirEntry(".", S_IFDIR) && ReadDir(idx, "/")[1] == DirEntry("..", S_IFDIR)
    ensures forall k :: 0 <= k < |idx.order| ==> ReadDir(idx, "/")[k + 2] == DirEntry(idx.order[k], S_IFLNK)
  {
  }

  /** For every path but the root, `getattr` finds a link exactly when
      `readlink` does, and then reports the length of the string `readlink`
      returns as the link's size. */
  lemma AttrAgreesWithReadLink(idx: Index, path: string)
    requires path != "/"
    ensures GetAttr(idx, path).Value? <==> ReadLink(idx, path).Value?
    ensures GetAttr(idx, path).Value? ==>
      GetAttr(idx, path).value.mode == LinkMode && GetAttr(idx, path).value.size == |ReadLink(idx, path).value|
  {
  }

  /** Every listed name that is a path component can be looked up: "/" and
      the name give the link's stat record and its target's string. */
  lemma ListedLinksResolve(idx: Index, n: string)
    requires n in idx.entries && IsComponent(n)
    ensures GetAttr(idx, "/" + n) == Value(Stat(LinkMode, 1, |Str(idx.entries[n].target)|, idx.entries[n].visited))
    ensures ReadLink(idx, "/" + n) == Value(Str(idx.entries[n].target))
  {
    SplitNoSeparator(n, '/');
    assert ("/" + n)[1..] == n;
    assert ("/" + n)[1] == n[0];
    assert Parse("/" + n) == ["/", n];
  }

  /** A path that resolves names an entry the root listing shows. */
  lemma ResolvedLinksAreListed(idx: Index, path: string)
    requires Valid(idx)
    requires ReadLink(idx, path).Value?
    ensures exists k :: 2 <= k < |ReadDir(idx, "/")| && ReadDir(idx, "/")[k] == DirEntry(RequestedName(path).value, S_IFLNK)
  {
    var n := RequestedName(path).value;
    var i :| 0 <= i < |idx.order| && idx.order[i] == n;
    assert ReadDir(idx, "/")[i + 2] == DirEntry(n, S_IFLNK);
  }

  /** The links of a built index are reachable: each non-empty name, asked
      for under the root, gives a link whose size is the length of its
      target's string and whose time is the stored visit time, and
      `readlink` gives that string. Only the empty name (the root
      directory's) cannot be asked for. */
  lemma BuiltLinksResolve(file: Builder.BookmarkFile, mount: Path, host: Builder.Host, n: string)
    requires Builder.Build(file, mount, host).Ok?
    requires n in Builder.Build(file, mount, host).value.entries
    ensures var idx := Builder.Build(file, mount, host).value;
      n != "" ==>
        && GetAttr(idx, "/" + n) == Value(Stat(LinkMode, 1, |Str(idx.entries[n].target)|, idx.entries[n].visited))
        && ReadLink(idx, "/" + n) == Value(Str(idx.entries[n].target))
  {
    var idx := Builder.Build(file, mount, host).value;
    Builder.BuiltEntriesAreSafe(file, mount, host);
    if n != "" {
      Builder.NameIsComponent(idx.entries[n].target);
      ListedLinksResolve(idx, n);
    }
  }

  /** With no usable bookmark the root lists only "." and "..", and the
      root itself is still a directory. */
  lemma NoUsableBookmarkListsOnlyDots(file: Builder.BookmarkFile, mount: Path, host: Builder.Host)
    requires file.Present? ==>
      forall j :: 0 <= j < |file.bookmarks| ==>
        !Builder.IsLocalFileBookmark(file.bookmarks[j])
        || Builder.Excluded(Builder.CandidateDir(file.bookmarks[j].href.value, host), mount, host)
    ensures Builder.Build(file, mount, host).Ok?
    ensures ReadDir(Builder.Build(file, mount, host).value, "/") == [DirEntry(".", S_IFDIR), DirEntry("..", S_IFDIR)]
    ensures GetAttr(Builder.Build(file, mount, host).value, "/") == Value(RootStat)
  {
    Builder.NoUsableBookmarkGivesEmptyIndex(file, mount, host);
  }
}
