/** `GRUFS._read_recent_dirs`: the bookmark list of `recently-used.xbel`
    turned into the recent-directory index. The XML document is given as its
    sequence of `bookmark` elements; the library calls the loop makes
    (`unquote`, `datetime.fromisoformat`, `Path.exists`) are supplied by the
    host. */
module Builder {
  import opened Wrappers
  import opened Text
  import opened PosixPath
  import opened RecentIndex

  /** A `bookmark` element's `href` and `visited` attributes, either of which
      may be absent. */
  datatype Bookmark = Bookmark(href: Option<string>, visited: Option<string>)

  /** The bookmark file: absent, or present with its bookmarks in document order. */
  datatype BookmarkFile = Missing | Present(bookmarks: seq<Bookmark>)

  /** The library and file-system calls the build makes: percent-decoding,
      ISO-8601 parsing (None where it raises; seconds since the epoch
      otherwise) and the existence test for a directory. */
  datatype Host = Host(unquote: string -> string, fromIsoFormat: string -> Option<int>, pathExists: Path -> bool)

  const FileScheme: string := "file://"

  /** Both attributes are present and non-empty and the reference is a
      `file://` URI; every other bookmark is passed over. */
  predicate IsLocalFileBookmark(b: Bookmark) {
    && b.href.Some? && b.href.value != ""
    && b.visited.Some? && b.visited.value != ""
    && StartsWith(b.href.value, FileScheme)
  }

  /** The directory holding the bookmarked file: every `file://` is removed
      from the reference, the rest is percent-decoded, parsed as a path, and
      its parent taken. */
  function CandidateDir(href: string, host: Host): (dir: Path)
    ensures WellFormed(dir)
  {
    Parent(Parse(host.unquote(ReplaceAll(href, FileScheme, ""))))
  }

  /** The directory is the mount point, lies below it, or does not exist.
      The source also compares the directory with the string "/", but a path
      never equals a string, so that test never excludes anything and is
      left out here. */
  predicate Excluded(dir: Path, mount: Path, host: Host) {
    IsRelativeTo(dir, mount) || !host.pathExists(dir)
  }

  /** The link name: of the last four parts of the path the first is dropped,
      the rest are reversed and joined with underscores. */
  function DeriveName(dir: Path): string {
    Join(Reverse(DropFirst(TakeLast(dir, 4))), "_")
  }

  /** The visit time: a trailing-`Z` style UTC marker is rewritten to
      `+00:00` before `fromisoformat` reads it. */
  function VisitTime(visited: string, host: Host): Option<int> {
    host.fromIsoFormat(ReplaceAll(visited, "Z", "+00:00"))
  }

  /** What one bookmark contributes, following the loop body's tests in
      their order: the attribute and scheme test, the directory tests, and
      only then the time, which raises when unreadable. */
  function Classify(b: Bookmark, mount: Path, host: Host): (c: Candidate)
    ensures c.Skipped? <==> !IsLocalFileBookmark(b) || Excluded(CandidateDir(b.href.value, host), mount, host)
    ensures c.Malformed? ==> c.visited == b.visited.value && VisitTime(b.visited.value, host).None?
    ensures c.Accepted? ==>
      && c.entry.target == CandidateDir(b.href.value, host)
      && WellFormed(c.entry.target)
      && host.pathExists(c.entry.target)
      && !IsRelativeTo(c.entry.target, mount)
      && c.name == DeriveName(c.entry.target)
      && VisitTime(b.visited.value, host) == Some(c.entry.visited)
  {
    if !IsLocalFileBookmark(b) then Skipped
    else
      var dir := CandidateDir(b.href.value, host);
      if Excluded(dir, mount, host) then Skipped
      else
        match VisitTime(b.visited.value, host)
        case None => Malformed(b.visited.value)
        case Some(t) => Accepted(DeriveName(dir), Entry(dir, t))
  }

  function Candidates(bookmarks: seq<Bookmark>, mount: Path, host: Host): (cs: seq<Candidate>)
    ensures |cs| == |bookmarks|
    ensures forall i :: 0 <= i < |cs| ==> cs[i] == Classify(bookmarks[i], mount, host)
  {
    seq(|bookmarks|, i requires 0 <= i < |bookmarks| => Classify(bookmarks[i], mount, host))
  }

  /** The index `_read_recent_dirs` returns, or the error it raises. */
  function Build(file: BookmarkFile, mount: Path, host: Host): Result<Index, BuildError> {
    match file
    case Missing => Ok(Empty)
    case Present(bookmarks) => Fold(Candidates(bookmarks, mount, host))
  }

  /** Stores `e` under `name` unless an entry visited no earlier is already
      there; a name seen for the first time goes to the end of the key order. */
  method Record(order: seq<string>, entries: map<string, Entry>, name: string, e: Entry)
    returns (order': seq<string>, entries': map<string, Entry>)
    requires Valid(Index(order, entries))
    ensures Index(order', entries') == Insert(Index(order, entries), name, e)
  {
    order', entries' := order, entries;
    if name !in entries || entries[name].visited < e.visited {
      if name !in entries {
        order' := order + [name];
      }
      entries' := entries[name := e];
    }
  }

  /** The loop of `_read_recent_dirs`, filling a dictionary in place. */
  method ReadRecentDirs(file: BookmarkFile, mount: Path, host: Host) returns (r: Result<Index, BuildError>)
    ensures r == Build(file, mount, host)
  {
    if file.Missing? {
      return Ok(Empty);
    }
    var bookmarks := file.bookmarks;
    ghost var cs := Candidates(bookmarks, mount, host);
    var order: seq<string> := [];
    var entries: map<string, Entry> := map[];
    for i := 0 to |bookmarks|
      invariant Fold(cs[..i]) == Ok(Index(order, entries))
    {
      FoldNext(cs, i);
      ghost var before := Index(order, entries);
      var b := bookmarks[i];
      if !IsLocalFileBookmark(b) {
        assert cs[i] == Skipped;
        continue;
      }
      var dir := CandidateDir(b.href.value, host);
      if IsRelativeTo(dir, mount) || !host.pathExists(dir) {
        assert cs[i] == Skipped;
        continue;
      }
      var name := DeriveName(dir);
      var timestamp := VisitTime(b.visited.value, host);
      if timestamp.None? {
        assert cs[i] == Malformed(b.visited.value);
        FailureIsFinal(cs, i + 1);
        return Err(BadTimestamp(b.visited.value));
      }
      assert cs[i] == Accepted(name, Entry(dir, timestamp.value));
      assert Fold(cs[..i + 1]) == Ok(Insert(before, name, Entry(dir, timestamp.value)));
      order, entries := Record(order, entries, name, Entry(dir, timestamp.value));
    }
    assert cs[..|bookmarks|] == cs;
    return Ok(Index(order, entries));
  }

  /** With no bookmark file, or with no bookmark that names an existing local
      directory outside the mount point, the index is empty. */
  lemma NoUsableBookmarkGivesEmptyIndex(file: BookmarkFile, mount: Path, host: Host)
    requires file.Present? ==>
      forall j :: 0 <= j < |file.bookmarks| ==>
        !IsLocalFileBookmark(file.bookmarks[j]) || Excluded(CandidateDir(file.bookmarks[j].href.value, host), mount, host)
    ensures Build(file, mount, host) == Ok(Empty)
  {
    if file.Present? {
      AllSkippedIsEmpty(Candidates(file.bookmarks, mount, host));
    }
  }

  /** Every stored link points at the parent directory of some accepted
      bookmark, which exists and is neither the mount point nor below it; its
      name is the one derived from that directory, and its time is that
      bookmark's visit time. */
  lemma BuiltEntriesAreSafe(file: BookmarkFile, mount: Path, host: Host)
    requires Build(file, mount, host).Ok?
    ensures var idx := Build(file, mount, host).value;
      forall n :: n in idx.entries ==>
        && WellFormed(idx.entries[n].target)
        && host.pathExists(idx.entries[n].target)
        && !IsRelativeTo(idx.entries[n].target, mount)
        && n == DeriveName(idx.entries[n].target)
        && file.Present?
        && exists j :: 0 <= j < |file.bookmarks|
             && IsLocalFileBookmark(file.bookmarks[j])
             && CandidateDir(file.bookmarks[j].href.value, host) == idx.entries[n].target
             && VisitTime(file.bookmarks[j].visited.value, host) == Some(idx.entries[n].visited)
  {
    if file.Present? {
      var cs := Candidates(file.bookmarks, mount, host);
      FoldChoosesLatest(cs);
      var idx := Fold(cs).value;
      forall n | n in idx.entries
        ensures exists j :: (0 <= j < |file.bookmarks|
             && IsLocalFileBookmark(file.bookmarks[j])
             && CandidateDir(file.bookmarks[j].href.value, host) == idx.entries[n].target
             && VisitTime(file.bookmarks[j].visited.value, host) == Some(idx.entries[n].visited))
        ensures n == DeriveName(idx.entries[n].target)
      {
        var j :| Chosen(cs, n, idx.entries[n], j);
        AcceptedAt(file.bookmarks, mount, host, j, n, idx.entries[n]);
      }
    }
  }

  lemma AcceptedAt(bookmarks: seq<Bookmark>, mount: Path, host: Host, j: int, n: string, e: Entry)
    requires 0 <= j < |bookmarks|
    requires Candidates(bookmarks, mount, host)[j] == Accepted(n, e)
    ensures IsLocalFileBookmark(bookmarks[j])
    ensures CandidateDir(bookmarks[j].href.value, host) == e.target
    ensures VisitTime(bookmarks[j].visited.value, host) == Some(e.visited)
    ensures n == DeriveName(e.target)
  {
    var c := Classify(bookmarks[j], mount, host);
    assert c == Accepted(n, e);
  }

  /** A successful build holds exactly the names that accepted bookmarks
      derive, and no bookmark that passed the filters had an unreadable time. */
  lemma BuildKeysAreAcceptedNames(bookmarks: seq<Bookmark>, mount: Path, host: Host)
    requires Build(Present(bookmarks), mount, host).Ok?
    ensures forall j :: 0 <= j < |bookmarks| ==> !Classify(bookmarks[j], mount, host).Malformed?
    ensures forall n :: n in Build(Present(bookmarks), mount, host).value.entries <==>
      exists j :: 0 <= j < |bookmarks| && Names(Classify(bookmarks[j], mount, host), n)
  {
    var cs := Candidates(bookmarks, mount, host);
    FoldKeys(cs);
    var idx := Fold(cs).value;
    forall j | 0 <= j < |bookmarks| ensures !Classify(bookmarks[j], mount, host).Malformed? {
      assert cs[j] == Classify(bookmarks[j], mount, host);
    }
    forall n ensures n in idx.entries <==> exists j :: 0 <= j < |bookmarks| && Names(Classify(bookmarks[j], mount, host), n) {
      if n in idx.entries {
        var j :| 0 <= j < |cs| && Names(cs[j], n);
        assert cs[j] == Classify(bookmarks[j], mount, host);
      }
      if exists j :: 0 <= j < |bookmarks| && Names(Classify(bookmarks[j], mount, host), n) {
        var j :| 0 <= j < |bookmarks| && Names(Classify(bookmarks[j], mount, host), n);
        assert Names(cs[j], n);
      }
    }
  }

  /** The collision rule over the whole document: under each name the build
      stores the entry of a bookmark with that name visited no earlier than
      any other, and of the first such bookmark in document order. */
  lemma BuildSelectsLatest(bookmarks: seq<Bookmark>, mount: Path, host: Host)
    requires Build(Present(bookmarks), mount, host).Ok?
    ensures var idx := Build(Present(bookmarks), mount, host).value;
      forall n :: n in idx.entries ==>
        && (forall j :: 0 <= j < |bookmarks| && Names(Classify(bookmarks[j], mount, host), n) ==>
              Classify(bookmarks[j], mount, host).entry.visited <= idx.entries[n].visited)
        && (exists j :: 0 <= j < |bookmarks| && Classify(bookmarks[j], mount, host) == Accepted(n, idx.entries[n])
              && forall k :: 0 <= k < j && Names(Classify(bookmarks[k], mount, host), n) ==>
                   Classify(bookmarks[k], mount, host).entry.visited < idx.entries[n].visited)
  {
    var cs := Candidates(bookmarks, mount, host);
    FoldChoosesLatest(cs);
    var idx := Fold(cs).value;
    forall n | n in idx.entries
      ensures forall j :: 0 <= j < |bookmarks| && Names(Classify(bookmarks[j], mount, host), n) ==>
              Classify(bookmarks[j], mount, host).entry.visited <= idx.entries[n].visited
      ensures exists j :: (0 <= j < |bookmarks| && Classify(bookmarks[j], mount, host) == Accepted(n, idx.entries[n])
              && forall k :: 0 <= k < j && Names(Classify(bookmarks[k], mount, host), n) ==>
                   Classify(bookmarks[k], mount, host).entry.visited < idx.entries[n].visited)
    {
      var j :| Chosen(cs, n, idx.entries[n], j);
      ChosenAtRecord(bookmarks, mount, host, n, idx.entries[n], j);
    }
  }

  lemma ChosenAtRecord(bookmarks: seq<Bookmark>, mount: Path, host: Host, n: string, e: Entry, j: int)
    requires Chosen(Candidates(bookmarks, mount, host), n, e, j)
    ensures 0 <= j < |bookmarks| && Classify(bookmarks[j], mount, host) == Accepted(n, e)
    ensures forall k :: 0 <= k < |bookmarks| && Names(Classify(bookmarks[k], mount, host), n) ==>
              Classify(bookmarks[k], mount, host).entry.visited <= e.visited
    ensures forall k :: 0 <= k < j && Names(Classify(bookmarks[k], mount, host), n) ==>
              Classify(bookmarks[k], mount, host).entry.visited < e.visited
  {
    var cs := Candidates(bookmarks, mount, host);
    forall k | 0 <= k < |bookmarks| && Names(Classify(bookmarks[k], mount, host), n)
      ensures Classify(bookmarks[k], mount, host).entry.visited <= e.visited
    {
      assert cs[k] == Classify(bookmarks[k], mount, host);
    }
  }

  /** The links are listed in the order their names first appear among the
      accepted bookmarks: re-inserting a name does not move it. */
  lemma BuildKeepsFirstSeenOrder(bookmarks: seq<Bookmark>, mount: Path, host: Host)
    requires Build(Present(bookmarks), mount, host).Ok?
    ensures var order := Build(Present(bookmarks), mount, host).value.order;
      forall p, q, k :: 0 <= p < q < |order| && 0 <= k < |bookmarks| && Names(Classify(bookmarks[k], mount, host), order[q]) ==>
        exists j :: 0 <= j < k && Names(Classify(bookmarks[j], mount, host), order[p])
  {
    var cs := Candidates(bookmarks, mount, host);
    FoldKeepsFirstSeenOrder(cs);
    var order := Fold(cs).value.order;
    forall p, q, k | 0 <= p < q < |order| && 0 <= k < |bookmarks| && Names(Classify(bookmarks[k], mount, host), order[q])
      ensures exists j :: 0 <= j < k && Names(Classify(bookmarks[j], mount, host), order[p])
    {
      assert cs[k] == Classify(bookmarks[k], mount, host);
      assert SeenBefore(cs, order[p], k);
      var j :| 0 <= j < k && j < |cs| && Names(cs[j], order[p]);
      assert cs[j] == Classify(bookmarks[j], mount, host);
    }
  }

  /** The build raises exactly when some bookmark that passes the filters
      has a visit time `fromisoformat` rejects, and it is the first such time
      that is reported; a bad time on a filtered-out bookmark does no harm. */
  lemma BuildFailsOnFirstBadTime(bookmarks: seq<Bookmark>, mount: Path, host: Host)
    ensures Build(Present(bookmarks), mount, host).Err? <==>
      exists j :: 0 <= j < |bookmarks| && Classify(bookmarks[j], mount, host).Malformed?
    ensures Build(Present(bookmarks), mount, host).Err? ==>
      exists j :: (0 <= j < |bookmarks|
        && IsLocalFileBookmark(bookmarks[j])
        && !Excluded(CandidateDir(bookmarks[j].href.value, host), mount, host)
        && VisitTime(bookmarks[j].visited.value, host).None?
        && Build(Present(bookmarks), mount, host).error == BadTimestamp(bookmarks[j].visited.value)
        && forall k :: 0 <= k < j ==> !Classify(bookmarks[k], mount, host).Malformed?)
  {
    var cs := Candidates(bookmarks, mount, host);
    FoldFailsOnFirstMalformed(cs);
    if Fold(cs).Err? {
      var j :| 0 <= j < |cs| && cs[j] == Malformed(Fold(cs).error.visited)
               && forall k :: 0 <= k < j ==> !cs[k].Malformed?;
      FirstBadTimeAt(bookmarks, mount, host, j, Fold(cs).error.visited);
    }
    forall j | 0 <= j < |bookmarks| && Classify(bookmarks[j], mount, host).Malformed?
      ensures Fold(cs).Err?
    {
      assert cs[j].Malformed?;
    }
  }

  lemma FirstBadTimeAt(bookmarks: seq<Bookmark>, mount: Path, host: Host, j: int, visited: string)
    requires 0 <= j < |bookmarks|
    requires Candidates(bookmarks, mount, host)[j] == Malformed(visited)
    requires forall k :: 0 <= k < j ==> !Candidates(bookmarks, mount, host)[k].Malformed?
    ensures IsLocalFileBookmark(bookmarks[j])
    ensures !Excluded(CandidateDir(bookmarks[j].href.value, host), mount, host)
    ensures VisitTime(bookmarks[j].visited.value, host).None?
    ensures visited == bookmarks[j].visited.value
    ensures forall k :: 0 <= k < j ==> !Classify(bookmarks[k], mount, host).Malformed?
  {
    var cs := Candidates(bookmarks, mount, host);
    assert Classify(bookmarks[j], mount, host) == Malformed(visited);
    forall k | 0 <= k < j ensures !Classify(bookmarks[k], mount, host).Malformed? {
      assert cs[k] == Classify(bookmarks[k], mount, host);
    }
  }

  /** For an absolute directory the name is made of its last three
      components, or all of them when it has fewer, in reverse order; the
      anchor never takes part. */
  lemma NameFromLastThreeComponents(dir: Path)
    requires IsAbsolute(dir)
    ensures DeriveName(dir) == Join(Reverse(TakeLast(Tail(dir), 3)), "_")
  {
    if |dir| <= 4 {
      assert DropFirst(TakeLast(dir, 4)) == TakeLast(Tail(dir), 3);
    } else {
      assert DropFirst(TakeLast(dir, 4)) == dir[|dir| - 3..];
      assert Tail(dir)[|Tail(dir)| - 3..] == dir[|dir| - 3..];
    }
  }

  /** A name is empty exactly for a directory with at most one part (the
      root "/" among them); any other name is a single path component, so a
      request for "/" followed by it reaches it. */
  lemma NameIsComponent(dir: Path)
    requires WellFormed(dir)
    ensures DeriveName(dir) == "" <==> |dir| <= 1
    ensures |dir| > 1 ==> IsComponent(DeriveName(dir))
  {
    var w := DropFirst(TakeLast(dir, 4));
    var rev := Reverse(w);
    assert forall i :: 0 <= i < |w| ==> IsComponent(w[i]) by {
      forall i | 0 <= i < |w| ensures IsComponent(w[i]) {
        assert w[i] == dir[|dir| - |TakeLast(dir, 4)| + 1 + i];
      }
    }
    assert forall i :: 0 <= i < |rev| ==> IsComponent(rev[i]);
    if |dir| > 1 {
      assert |rev| > 0;
      JoinHead(rev, "_");
      JoinAvoids(rev, "_", '/');
      if |rev| > 1 {
        assert |Join(rev, "_")| >= 2;
      }
    }
  }

  /** Removing the scheme from a reference that has no other colon. */
  lemma StripScheme(rest: string)
    requires ':' !in rest
    ensures ReplaceAll(FileScheme + rest, FileScheme, "") == rest
  {
    var href := FileScheme + rest;
    assert href[..|FileScheme|] == FileScheme;
    assert href[|FileScheme|..] == rest;
    MissingCharNoOccurrence(rest, FileScheme, 4);
    ReplaceAbsent(rest, FileScheme, "");
    assert "" + rest == rest;
  }
}
