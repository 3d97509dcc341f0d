/** The part of Python's `pathlib.PurePosixPath` the file system uses: a
    path is its `parts` tuple, built from a string by `Path(s)`, turned back
    into a string by `str(p)`, and compared with `parent` and
    `is_relative_to`. */
module PosixPath {
  import opened Text

  /** `Path(...).parts`: for an absolute path the first element is its anchor
      ("/", or "//" when the string starts with exactly two slashes), the rest
      are the components. */
  type Path = seq<string>

  predicate IsAnchor(s: string) {
    s == "/" || s == "//"
  }

  /** What survives in `parts` after parsing: no empty piece, no ".", no slash. */
  predicate IsComponent(s: string) {
    s != "" && s != "." && '/' !in s
  }

  /** The shape of every `parts` tuple pathlib produces. */
  predicate WellFormed(p: Path) {
    forall i :: 0 <= i < |p| ==> IsComponent(p[i]) || (i == 0 && IsAnchor(p[i]))
  }

  predicate IsAbsolute(p: Path) {
    |p| > 0 && IsAnchor(p[0])
  }

  /** The components after the anchor (pathlib's tail). */
  function Tail(p: Path): (t: Path)
    ensures |t| == if IsAbsolute(p) then |p| - 1 else |p|
  {
    if IsAbsolute(p) then p[1..] else p
  }

  /** Drops the empty and "." pieces of a split, as pathlib's parser does. */
  function Clean(pieces: seq<string>): (comps: Path)
    requires forall i :: 0 <= i < |pieces| ==> '/' !in pieces[i]
    ensures forall i :: 0 <= i < |comps| ==> IsComponent(comps[i])
    ensures (forall i :: 0 <= i < |pieces| ==> IsComponent(pieces[i])) ==> comps == pieces
  {
    if |pieces| == 0 then []
    else (if pieces[0] == "" || pieces[0] == "." then [] else [pieces[0]]) + Clean(pieces[1..])
  }

  /** `Path(s).parts` for a POSIX path: one leading slash or three and more
      give the anchor "/", exactly two give "//", none gives a relative path;
      the rest is split at slashes with empty and "." pieces dropped. */
  function Parse(s: string): (p: Path)
    ensures WellFormed(p)
    ensures IsAbsolute(p) <==> |s| > 0 && s[0] == '/'
  {
    if |s| == 0 || s[0] != '/' then Clean(Split(s, '/'))
    else if |s| >= 2 && s[1] == '/' && !(|s| >= 3 && s[2] == '/') then ["//"] + Clean(Split(s[2..], '/'))
    else ["/"] + Clean(Split(s[1..], '/'))
  }

  /** `str(p)`: the anchor followed by the components joined with slashes;
      "." for the empty relative path. */
  function Str(p: Path): string {
    if |p| == 0 then "."
    else if IsAnchor(p[0]) then p[0] + Join(p[1..], "/")
    else Join(p, "/")
  }

  /** `p.parent`: the path without its last component; a path with no
      component (the anchor alone, or ".") is its own parent. */
  function Parent(p: Path): (q: Path)
    ensures WellFormed(p) ==> WellFormed(q)
    ensures IsAbsolute(q) <==> IsAbsolute(p)
    ensures q <= p
    ensures q == p <==> |Tail(p)| == 0
    ensures |Tail(p)| > 0 ==> |Tail(q)| == |Tail(p)| - 1
  {
    if |Tail(p)| == 0 then p else p[..|p| - 1]
  }

  /** `p.parents`: the parent, its parent, and so on up to the anchor (or
      up to "." for a relative path). */
  function Parents(p: Path): (ps: seq<Path>)
    decreases |p|
  {
    if |Tail(p)| == 0 then [] else [Parent(p)] + Parents(Parent(p))
  }

  /** `p.is_relative_to(base)`: `base` is `p` itself or one of its parents. */
  predicate IsRelativeTo(p: Path, base: Path) {
    base == p || base in Parents(p)
  }

  /** `is_relative_to` is a component-wise prefix test that never strips the
      anchor: `base` is a prefix of `p` at least as long as `p`'s anchor. */
  lemma {:induction false} RelativeToIsPrefix(p: Path, base: Path)
    ensures IsRelativeTo(p, base) <==> base <= p && |base| >= |p| - |Tail(p)|
    decreases |p|
  {
    if |Tail(p)| > 0 {
      var q := Parent(p);
      RelativeToIsPrefix(q, base);
      assert IsRelativeTo(p, base) <==> base == p || IsRelativeTo(q, base);
      if base <= p && |base| >= |p| - |Tail(p)| && base != p {
        assert |base| < |p|;
        assert base <= q;
      }
    }
  }

  /** `Path(str(p))` gives back `p`: the string a path prints as names it
      exactly. */
  lemma ParseStr(p: Path)
    requires WellFormed(p)
    ensures Parse(Str(p)) == p
  {
    if |p| == 0 {
      SplitNoSeparator(".", '/');
    } else if IsAnchor(p[0]) {
      ParseAnchored(p[0], p[1..]);
      assert [p[0]] + p[1..] == p;
    } else {
      ParseComponents(p);
    }
  }

  /** Components joined with slashes split back into themselves. */
  lemma ParseComponents(comps: Path)
    requires |comps| > 0
    requires forall i :: 0 <= i < |comps| ==> IsComponent(comps[i])
    ensures |Join(comps, "/")| > 0 && Join(comps, "/")[0] != '/'
    ensures Clean(Split(Join(comps, "/"), '/')) == comps
  {
    assert IsComponent(comps[0]);
    JoinHead(comps, "/");
    SplitJoin(comps, '/');
  }

  lemma ParseAnchored(anchor: string, tail: Path)
    requires IsAnchor(anchor)
    requires forall i :: 0 <= i < |tail| ==> IsComponent(tail[i])
    ensures Parse(anchor + Join(tail, "/")) == [anchor] + tail
  {
    var j := Join(tail, "/");
    if |tail| == 0 {
      assert j == "";
      ParseAnchorAlone(anchor);
    } else {
      ParseComponents(tail);
      assert (anchor + j)[|anchor|..] == j;
    }
  }

  lemma ParseAnchorAlone(anchor: string)
    requires IsAnchor(anchor)
    ensures Parse(anchor + "") == [anchor]
  {
    assert anchor + "" == anchor;
    if anchor == "/" {
      assert anchor[1..] == "";
    } else {
      assert anchor[2..] == "";
    }
    SplitNoSeparator("", '/');
  }

  /** Two well-formed paths that print alike are the same path, so comparing
      paths and comparing their strings agree. */
  lemma StrInjective(p: Path, q: Path)
    requires WellFormed(p) && WellFormed(q)
    requires Str(p) == Str(q)
    ensures p == q
  {
    ParseStr(p);
    ParseStr(q);
  }
}
