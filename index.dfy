/** The recent-directory index: the `dict[str, tuple[Path, datetime]]`
    that `_read_recent_dirs` fills, one bookmark at a time, and the facts that
    hold of the finished dictionary. */
module RecentIndex {
  import opened Wrappers
  import opened PosixPath

  /** The dictionary value: the directory a link points at and the time it
      was last visited, in whole seconds. */
  datatype Entry = Entry(target: Path, visited: int)

  /** A Python dict: its keys in first-insertion order, and the mapping. */
  datatype Index = Index(order: seq<string>, entries: map<string, Entry>)

  const Empty := Index([], map[])

  /** Every key is listed once, and the listed keys are the mapped ones. */
  ghost predicate Valid(idx: Index) {
    && (forall i, j :: 0 <= i < j < |idx.order| ==> idx.order[i] != idx.order[j])
    && (forall n :: n in idx.entries <==> n in idx.order)
  }

  /** What one bookmark contributes to the build: nothing (it is filtered
      out), an unreadable visit time (which aborts the build), or a name with
      its entry. */
  datatype Candidate = Skipped | Malformed(visited: string) | Accepted(name: string, entry: Entry)

  /** The exception that ends a build: `fromisoformat` rejected a time. */
  datatype BuildError = BadTimestamp(visited: string)

  predicate Names(c: Candidate, n: string) {
    c.Accepted? && c.name == n
  }

  /** The collision rule: `name` gets `e` unless it already holds an entry
      visited at the same time or later. A new key goes to the end of the
      key order; overwriting a key leaves the order alone. */
  function Insert(idx: Index, name: string, e: Entry): (r: Index)
    requires Valid(idx)
    ensures Valid(r)
    ensures name in r.entries
    ensures name !in idx.entries ==> r.entries[name] == e && r.order == idx.order + [name]
    ensures name in idx.entries ==> r.order == idx.order
    ensures name in idx.entries && idx.entries[name].visited < e.visited ==> r.entries[name] == e
    ensures name in idx.entries && e.visited <= idx.entries[name].visited ==> r.entries[name] == idx.entries[name]
    ensures forall n :: n != name ==> (n in r.entries <==> n in idx.entries)
    ensures forall n :: n != name && n in idx.entries ==> r.entries[n] == idx.entries[n]
  {
    if name !in idx.entries || idx.entries[name].visited < e.visited then
      Index(if name in idx.entries then idx.order else idx.order + [name], idx.entries[name := e])
    else
      idx
  }

  /** One turn of the loop body over a candidate. */
  function Step(acc: Index, c: Candidate): (r: Result<Index, BuildError>)
    requires Valid(acc)
    ensures r.Ok? ==> Valid(r.value)
    ensures r.Err? <==> c.Malformed?
  {
    match c
    case Skipped => Ok(acc)
    case Malformed(v) => Err(BadTimestamp(v))
    case Accepted(n, e) => Ok(Insert(acc, n, e))
  }

  /** The loop over all candidates, in document order, from an empty dict. */
  function Fold(cs: seq<Candidate>): (r: Result<Index, BuildError>)
    ensures r.Ok? ==> Valid(r.value)
  {
    if |cs| == 0 then Ok(Empty)
    else
      match Fold(cs[..|cs| - 1])
      case Err(e) => Err(e)
      case Ok(prev) => Step(prev, cs[|cs| - 1])
  }

  /** `e` is the entry stored for `n`, taken from candidate `j`: no candidate
      for `n` was visited later, and every earlier one was visited strictly
      earlier (on a tie the first in document order stays). */
  ghost predicate Chosen(cs: seq<Candidate>, n: string, e: Entry, j: int) {
    && 0 <= j < |cs|
    && cs[j] == Accepted(n, e)
    && (forall k :: 0 <= k < |cs| && Names(cs[k], n) ==> cs[k].entry.visited <= e.visited)
    && (forall k :: 0 <= k < j && Names(cs[k], n) ==> cs[k].entry.visited < e.visited)
  }

  lemma ChosenSurvives(cs: seq<Candidate>, c: Candidate, n: string, e: Entry, j: int)
    requires Chosen(cs, n, e, j)
    requires Names(c, n) ==> c.entry.visited <= e.visited
    ensures Chosen(cs + [c], n, e, j)
  {
    var cs' := cs + [c];
    forall k | 0 <= k < |cs'| && Names(cs'[k], n)
      ensures cs'[k].entry.visited <= e.visited
    {
      if k < |cs| { assert cs'[k] == cs[k]; }
    }
  }

  lemma ChosenNew(cs: seq<Candidate>, n: string, e: Entry)
    requires forall k :: 0 <= k < |cs| && Names(cs[k], n) ==> cs[k].entry.visited < e.visited
    ensures Chosen(cs + [Accepted(n, e)], n, e, |cs|)
  {
    var cs' := cs + [Accepted(n, e)];
    forall k | 0 <= k < |cs'| && Names(cs'[k], n)
      ensures cs'[k].entry.visited <= e.visited
    {
      if k < |cs| { assert cs'[k] == cs[k]; }
    }
  }

  /** A single accepted candidate gives a one-entry dict. */
  lemma FoldSingleAccepted(n: string, e: Entry)
    ensures Fold([Accepted(n, e)]) == Ok(Index([n], map[n := e]))
  {
    var cs := [Accepted(n, e)];
    assert cs[..0] == [];
    assert Fold(cs[..0]) == Ok(Empty);
    assert Step(Empty, cs[0]) == Ok(Insert(Empty, n, e));
    assert Insert(Empty, n, e) == Index([n], map[n := e]);
  }

  /** A successful build saw no unreadable time, and it holds exactly the
      names some accepted bookmark derived. */
  lemma {:induction false} FoldKeys(cs: seq<Candidate>)
    requires Fold(cs).Ok?
    ensures forall j :: 0 <= j < |cs| ==> !cs[j].Malformed?
    ensures forall n :: n in Fold(cs).value.entries <==> exists j :: 0 <= j < |cs| && Names(cs[j], n)
  {
    if |cs| > 0 {
      var init, c := cs[..|cs| - 1], cs[|cs| - 1];
      assert cs == init + [c];
      FoldKeys(init);
      var p := Fold(init).value;
      var r := Fold(cs).value;
      assert Step(p, c) == Ok(r);
      forall n
        ensures n in r.entries <==> exists j :: 0 <= j < |cs| && Names(cs[j], n)
      {
        if n in r.entries && !Names(c, n) {
          var j :| 0 <= j < |init| && Names(init[j], n);
          assert cs[j] == init[j];
        }
        if n !in r.entries {
          forall j | 0 <= j < |cs| ensures !Names(cs[j], n) {
            if j < |init| { assert cs[j] == init[j]; }
          }
        }
        if n in r.entries && Names(c, n) {
          assert Names(cs[|cs| - 1], n);
        }
      }
    }
  }

  /** One insertion keeps the chosen entry of every name chosen. */
  lemma ChosenStep(init: seq<Candidate>, c: Candidate, p: Index, r: Index, n: string)
    requires Valid(p) && Step(p, c) == Ok(r)
    requires n in r.entries
    requires forall m :: m in p.entries ==> exists j :: Chosen(init, m, p.entries[m], j)
    requires n !in p.entries ==> forall k :: 0 <= k < |init| ==> !Names(init[k], n)
    ensures exists j :: Chosen(init + [c], n, r.entries[n], j)
  {
    if Names(c, n) && (n !in p.entries || p.entries[n].visited < c.entry.visited) {
      if n in p.entries {
        var j :| Chosen(init, n, p.entries[n], j);
      }
      ChosenNew(init, n, c.entry);
      assert Chosen(init + [c], n, r.entries[n], |init|);
    } else {
      var j :| Chosen(init, n, p.entries[n], j);
      ChosenSurvives(init, c, n, p.entries[n], j);
      assert Chosen(init + [c], n, r.entries[n], j);
    }
  }

  /** Under each name a successful build stores the entry of the
      latest-visited bookmark with that name, the first one on a tie. */
  lemma {:induction false} FoldChoosesLatest(cs: seq<Candidate>)
    requires Fold(cs).Ok?
    ensures forall n :: n in Fold(cs).value.entries ==> exists j :: Chosen(cs, n, Fold(cs).value.entries[n], j)
  {
    if |cs| > 0 {
      var init, c := cs[..|cs| - 1], cs[|cs| - 1];
      assert cs == init + [c];
      FoldChoosesLatest(init);
      FoldKeys(init);
      var p := Fold(init).value;
      var r := Fold(cs).value;
      assert Step(p, c) == Ok(r);
      forall n | n in r.entries
        ensures exists j :: Chosen(cs, n, r.entries[n], j)
      {
        ChosenStep(init, c, p, r, n);
      }
    }
  }

  /** Some candidate before position `k` names `n`. */
  ghost predicate SeenBefore(cs: seq<Candidate>, n: string, k: int) {
    exists j :: 0 <= j < k && j < |cs| && Names(cs[j], n)
  }

  /** The key order is the order in which names were first seen: for two
      keys listed one before the other, every candidate naming the later key
      comes after some candidate naming the earlier one. */
  ghost predicate InFirstSeenOrder(cs: seq<Candidate>, order: seq<string>) {
    forall p, q, k :: 0 <= p < q < |order| && 0 <= k < |cs| && Names(cs[k], order[q]) ==> SeenBefore(cs, order[p], k)
  }

  lemma SeenBeforeExtend(cs: seq<Candidate>, c: Candidate, n: string, k: int)
    requires SeenBefore(cs, n, k)
    ensures SeenBefore(cs + [c], n, k)
  {
    var j :| 0 <= j < k && j < |cs| && Names(cs[j], n);
    assert (cs + [c])[j] == cs[j];
  }

  lemma {:induction false} FirstSeenOrderStep(init: seq<Candidate>, c: Candidate, prev: Index, r: Index)
    requires Valid(prev) && Step(prev, c) == Ok(r)
    requires forall n :: n in prev.entries <==> SeenBefore(init, n, |init|)
    requires InFirstSeenOrder(init, prev.order)
    ensures InFirstSeenOrder(init + [c], r.order)
  {
    var cs := init + [c];
    forall p, q, k | 0 <= p < q < |r.order| && 0 <= k < |cs| && Names(cs[k], r.order[q])
      ensures SeenBefore(cs, r.order[p], k)
    {
      assert r.order[p] in prev.order;
      if k < |init| {
        assert cs[k] == init[k];
        if q < |prev.order| {
          assert r.order[q] == prev.order[q] && r.order[p] == prev.order[p];
          SeenBeforeExtend(init, c, r.order[p], k);
        } else {
          assert SeenBefore(init, r.order[q], |init|);
          assert false;
        }
      } else {
        SeenBeforeExtend(init, c, r.order[p], k);
      }
    }
  }

  /** Re-inserting a name never moves it: the finished dict lists its keys
      in the order their names first appeared. */
  lemma {:induction false} FoldKeepsFirstSeenOrder(cs: seq<Candidate>)
    requires Fold(cs).Ok?
    ensures InFirstSeenOrder(cs, Fold(cs).value.order)
  {
    if |cs| > 0 {
      var init, c := cs[..|cs| - 1], cs[|cs| - 1];
      assert cs == init + [c];
      FoldKeepsFirstSeenOrder(init);
      FoldKeys(init);
      var prev := Fold(init).value;
      forall n ensures n in prev.entries <==> SeenBefore(init, n, |init|) {
        if n in prev.entries {
          var j :| 0 <= j < |init| && Names(init[j], n);
        }
      }
      FirstSeenOrderStep(init, c, prev, Fold(cs).value);
    }
  }

  /** The build fails exactly when some candidate has an unreadable time,
      and it reports the first such time in document order. */
  lemma {:induction false} FoldFailsOnFirstMalformed(cs: seq<Candidate>)
    ensures Fold(cs).Err? <==> exists j :: 0 <= j < |cs| && cs[j].Malformed?
    ensures Fold(cs).Err? ==> exists j :: 0 <= j < |cs| && cs[j] == Malformed(Fold(cs).error.visited)
                                  && forall k :: 0 <= k < j ==> !cs[k].Malformed?
  {
    if |cs| > 0 {
      var init, c := cs[..|cs| - 1], cs[|cs| - 1];
      assert cs == init + [c];
      FoldFailsOnFirstMalformed(init);
      if Fold(init).Err? {
        var j :| 0 <= j < |init| && init[j] == Malformed(Fold(init).error.visited)
                 && forall k :: 0 <= k < j ==> !init[k].Malformed?;
        assert cs[j] == init[j];
        forall k | 0 <= k < j ensures !cs[k].Malformed? { assert cs[k] == init[k]; }
      } else {
        forall j | 0 <= j < |init| ensures !cs[j].Malformed? { assert cs[j] == init[j]; }
        if c.Malformed? {
          assert cs[|init|] == Malformed(Fold(cs).error.visited);
        }
      }
    }
  }

  /** One more turn of the loop. */
  lemma FoldNext(cs: seq<Candidate>, i: nat)
    requires i < |cs| && Fold(cs[..i]).Ok?
    ensures Fold(cs[..i + 1]) == Step(Fold(cs[..i]).value, cs[i])
  {
    assert cs[..i + 1][..i] == cs[..i];
  }

  /** Once the loop has raised, later bookmarks change nothing. */
  lemma {:induction false} FailureIsFinal(cs: seq<Candidate>, k: nat)
    requires k <= |cs| && Fold(cs[..k]).Err?
    ensures Fold(cs) == Fold(cs[..k])
    decreases |cs| - k
  {
    if k < |cs| {
      assert cs[..k + 1][..k] == cs[..k];
      FailureIsFinal(cs, k + 1);
    } else {
      assert cs[..k] == cs;
    }
  }

  /** A filtered-out bookmark contributes nothing, wherever it stands. */
  lemma {:induction false} SkippedIsInvisible(a: seq<Candidate>, b: seq<Candidate>)
    ensures Fold(a + [Skipped] + b) == Fold(a + b)
    decreases |b|
  {
    if |b| == 0 {
      assert a + [Skipped] + b == a + [Skipped];
      assert (a + [Skipped])[..|a|] == a;
      assert a + b == a;
    } else {
      var b', c := b[..|b| - 1], b[|b| - 1];
      SkippedIsInvisible(a, b');
      assert (a + [Skipped] + b)[..|a + [Skipped] + b| - 1] == a + [Skipped] + b';
      assert (a + b)[..|a + b| - 1] == a + b';
    }
  }

  /** When every bookmark is filtered out, the dict stays empty. */
  lemma {:induction false} AllSkippedIsEmpty(cs: seq<Candidate>)
    requires forall j :: 0 <= j < |cs| ==> cs[j].Skipped?
    ensures Fold(cs) == Ok(Empty)
  {
    if |cs| > 0 {
      AllSkippedIsEmpty(cs[..|cs| - 1]);
    }
  }
}
