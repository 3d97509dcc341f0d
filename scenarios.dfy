/** A bookmark followed end to end, from the document to the answers the
    mounted directory gives. */
module Scenarios {
  import opened Wrappers
  import opened Text
  import opened PosixPath
  import opened RecentIndex
  import opened Builder
  import opened Queries

  /** `/home/alice/projects/widget` and a file in it. */
  const WidgetDir: Path := ["/", "home", "alice", "projects", "widget"]
  const WidgetFile: Path := WidgetDir + ["file.txt"]

  const WidgetName: string := "widget_projects_alice"

  lemma MountParts()
    ensures Parse("/mnt/recent") == ["/", "mnt", "recent"]
  {
    assert Str(["/", "mnt", "recent"]) == "/mnt/recent";
    ParseStr(["/", "mnt", "recent"]);
  }

  lemma WidgetFileHasNoColon()
    ensures ':' !in Str(WidgetFile)
  {
    var tail := WidgetFile[1..];
    assert tail == ["home", "alice", "projects", "widget", "file.txt"];
    JoinAvoids(tail, "/", ':');
    assert Str(WidgetFile) == "/" + Join(tail, "/");
  }

  lemma WidgetDirOfHref(host: Host)
    requires host.unquote(Str(WidgetFile)) == Str(WidgetFile)
    ensures CandidateDir(FileScheme + Str(WidgetFile), host) == WidgetDir
  {
    WidgetFileHasNoColon();
    StripScheme(Str(WidgetFile));
    ParseStr(WidgetFile);
    assert Parent(WidgetFile) == WidgetDir;
  }

  lemma UtcLiteral()
    ensures "2024-01-01T12:00:00" + "Z" == "2024-01-01T12:00:00Z"
    ensures "2024-01-01T12:00:00" + "+00:00" == "2024-01-01T12:00:00+00:00"
    ensures 'Z' !in "2024-01-01T12:00:00"
  {
  }

  /** The trailing `Z` becomes `+00:00` before the time is parsed. */
  lemma UtcVisitTime(host: Host)
    ensures VisitTime("2024-01-01T12:00:00Z", host) == host.fromIsoFormat("2024-01-01T12:00:00+00:00")
  {
    UtcLiteral();
    ReplaceAfter("2024-01-01T12:00:00", "Z", 'Z', "+00:00");
    assert ReplaceAll("Z", "Z", "+00:00") == "+00:00";
  }

  lemma WidgetNameParts()
    ensures DeriveName(WidgetDir) == WidgetName
    ensures IsComponent(WidgetName)
  {
    WidgetDirIsNamed();
  }

  const WidgetBookmark: Bookmark := Bookmark(Some(FileScheme + Str(WidgetFile)), Some("2024-01-01T12:00:00Z"))

  lemma WidgetClassified(host: Host, t: int)
    requires host.unquote(Str(WidgetFile)) == Str(WidgetFile)
    requires host.pathExists(WidgetDir)
    requires host.fromIsoFormat("2024-01-01T12:00:00+00:00") == Some(t)
    ensures Classify(WidgetBookmark, Parse("/mnt/recent"), host) == Accepted(WidgetName, Entry(WidgetDir, t))
  {
    var mount := Parse("/mnt/recent");
    MountParts();
    assert IsLocalFileBookmark(WidgetBookmark) by {
      assert (FileScheme + Str(WidgetFile))[..|FileScheme|] == FileScheme;
    }
    WidgetDirOfHref(host);
    RelativeToIsPrefix(WidgetDir, mount);
    assert !Excluded(WidgetDir, mount, host);
    UtcVisitTime(host);
    WidgetNameParts();
  }

  lemma SingleBookmark(b: Bookmark, mount: Path, host: Host)
    ensures Build(Present([b]), mount, host) == Fold([Classify(b, mount, host)])
  {
    assert Candidates([b], mount, host) == [Classify(b, mount, host)];
  }

  lemma WidgetBuild(host: Host, t: int)
    requires host.unquote(Str(WidgetFile)) == Str(WidgetFile)
    requires host.pathExists(WidgetDir)
    requires host.fromIsoFormat("2024-01-01T12:00:00+00:00") == Some(t)
    ensures Build(Present([WidgetBookmark]), Parse("/mnt/recent"), host)
         == Ok(Index([WidgetName], map[WidgetName := Entry(WidgetDir, t)]))
  {
    WidgetClassified(host, t);
    SingleBookmark(WidgetBookmark, Parse("/mnt/recent"), host);
    FoldSingleAccepted(WidgetName, Entry(WidgetDir, t));
  }

  /** One bookmark for a file in `/home/alice/projects/widget`, visited at
      `2024-01-01T12:00:00Z`, with the file system mounted at `/mnt/recent`:
      the index holds one link, named `widget_projects_alice`, that resolves to the directory and carries the
      visit time. */
  lemma WidgetScenario(host: Host, t: int)
    requires host.unquote(Str(WidgetFile)) == Str(WidgetFile)
    requires host.pathExists(WidgetDir)
    requires host.fromIsoFormat("2024-01-01T12:00:00+00:00") == Some(t)
    ensures var r := Build(Present([WidgetBookmark]), Parse("/mnt/recent"), host);
      && r == Ok(Index([WidgetName], map[WidgetName := Entry(WidgetDir, t)]))
      && ReadLink(r.value, "/" + WidgetName) == Value(Str(WidgetDir))
      && GetAttr(r.value, "/" + WidgetName) == Value(Stat(LinkMode, 1, |Str(WidgetDir)|, t))
      && ReadDir(r.value, "/") == [DirEntry(".", S_IFDIR), DirEntry("..", S_IFDIR), DirEntry(WidgetName, S_IFLNK)]
  {
    WidgetBuild(host, t);
    var idx := Index([WidgetName], map[WidgetName := Entry(WidgetDir, t)]);
    WidgetNameParts();
    ListedLinksResolve(idx, WidgetName);
    var listing := ReadDir(idx, "/");
    assert listing[2] == DirEntry(WidgetName, S_IFLNK);
  }

  /** The name of `/home/alice/projects/widget`. */
  lemma WidgetDirIsNamed()
    ensures DeriveName(["/", "home", "alice", "projects", "widget"]) == "widget_projects_alice"
  {
    var dir := ["/", "home", "alice", "projects", "widget"];
    assert DropFirst(TakeLast(dir, 4)) == ["alice", "projects", "widget"];
    WidgetParts();
  }

  lemma WidgetParts()
    ensures Join(Reverse(["alice", "projects", "widget"]), "_") == "widget_projects_alice"
  {
    var rev := ["widget", "projects", "alice"];
    assert Reverse(["alice", "projects", "widget"]) == rev;
    assert Join(rev[2..], "_") == "alice";
    assert Join(rev[1..], "_") == "projects" + "_" + "alice";
    assert Join(rev, "_") == "widget" + "_" + ("projects" + "_" + "alice");
  }

  /** A file directly under the root is not filtered out: its directory is
      "/", which is kept under the empty name (the comparison of the
      directory with the string "/" never holds). */
  lemma RootLevelBookmarkIsKept(visited: string, mount: Path, host: Host, t: int)
    requires visited != "" && 'Z' !in visited
    requires host.unquote("/notes.txt") == "/notes.txt"
    requires host.pathExists(["/"])
    requires mount != ["/"]
    requires host.fromIsoFormat(visited) == Some(t)
    ensures Classify(Bookmark(Some("file:///notes.txt"), Some(visited)), mount, host) == Accepted("", Entry(["/"], t))
  {
    var b := Bookmark(Some("file:///notes.txt"), Some(visited));
    assert IsLocalFileBookmark(b) by {
      assert "file:///notes.txt"[..|FileScheme|] == FileScheme;
    }
    RootFileDir(host);
    RelativeToIsPrefix(["/"], mount);
    assert !Excluded(["/"], mount, host);
    MissingCharNoOccurrence(visited, "Z", 0);
    ReplaceAbsent(visited, "Z", "+00:00");
    assert VisitTime(visited, host) == Some(t);
    assert DeriveName(["/"]) == "";
  }

  lemma RootFileDir(host: Host)
    requires host.unquote("/notes.txt") == "/notes.txt"
    ensures CandidateDir("file:///notes.txt", host) == ["/"]
  {
    StripRootFile();
    ParseRootFile();
    assert Parent(["/", "notes.txt"]) == ["/"];
  }

  lemma StripRootFile()
    ensures ReplaceAll("file:///notes.txt", FileScheme, "") == "/notes.txt"
  {
    RootHref();
    StripScheme("/notes.txt");
  }

  lemma RootHref()
    ensures FileScheme + "/notes.txt" == "file:///notes.txt"
  {
  }

  lemma ParseRootFile()
    ensures Parse("/notes.txt") == ["/", "notes.txt"]
  {
    SplitNoSeparator("notes.txt", '/');
    assert "/notes.txt"[1..] == "notes.txt";
    assert "/notes.txt"[1] != '/';
  }
}
