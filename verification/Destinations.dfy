/** Extraction into destinations that are not empty or not there, and of archives that a failed or
    disturbed compression left behind. */
module Destinations {
  import opened Options
  import opened Text
  import opened Filepath
  import opened Disk
  import opened Tar
  import opened Order
  import opened Archive
  import opened Replaying
  import opened RoundTrips
  import opened Source
  import opened Written
  import opened WalkOrder

  // ---------------------------------------------------------------- existing files

  /** A file written over keeps what lay beyond the new bytes; the result is the new content
      exactly when the old one was no longer. */
  lemma OverwriteKeepsTheRest(existing: seq<Byte>, data: seq<Byte>)
    ensures var r := Overwrite(existing, data);
            && |r| == (if |existing| <= |data| then |data| else |existing|)
            && r[..|data|] == data
            && r[|data|..] == (if |existing| <= |data| then [] else existing[|data|..])
            && (r == data <==> |existing| <= |data|)
  {
  }

  /** The overlay law for files, over a whole archive: a successful extraction turns every existing
      file into new ++ old[|new|..] and keeps its mode, creates what is missing, and leaves every
      path outside the archive as it was. */
  lemma {:induction false} FilesAreOverlaid(before: Nodes, dir: Path, top: Path, umask: Mode, es: seq<Entry>, i: nat)
    requires Replayable(es) && LeadsTo(before, dir, top) && NothingObstructs(before, top, es)
    requires Replay(before, dir, umask, es).err.None?
    requires i < |es| && es[i].h.flag.TypeReg?
    ensures var loc, after := top + PathOf(es[i]), Replay(before, dir, umask, es).fs;
            && loc in after && after[loc].File?
            && (loc in before ==>
                  && before[loc].File? && after[loc].mode == before[loc].mode
                  && after[loc].bytes == Overwrite(before[loc].bytes, es[i].body)
                  && (after[loc].bytes == es[i].body <==> |before[loc].bytes| <= |es[i].body|))
            && (loc !in before ==> after[loc] == File(Masked(es[i].h.mode, umask), es[i].body))
    ensures forall q :: q in before && q !in Targets(top, es) ==>
              q in Replay(before, dir, umask, es).fs && Replay(before, dir, umask, es).fs[q] == before[q]
    ensures forall q :: q in Replay(before, dir, umask, es).fs && q !in before ==> q in Targets(top, es)
  {
    OverlayLaw(before, dir, top, umask, es);
    var loc := top + PathOf(es[i]);
    assert Fits(before, loc, es[i]);
    assert loc in Targets(top, es);
    if loc in before {
      OverwriteKeepsTheRest(before[loc].bytes, es[i].body);
    }
  }

  // ---------------------------------------------------------------- missing destinations

  /** The file system with the directories from path[..a + 1] down to `path` added. */
  function Filled(fs: Nodes, path: Path, a: nat, mode: Mode): Nodes
    decreases |path|
  {
    if |path| <= a then fs else Filled(fs, Parent(path), a, mode)[path := Dir(mode)]
  }

  /** `dir` leads, possibly through links, to the directory `up`, and there the first of the names
      `rest` is free. */
  ghost predicate MissingFrom(fs: Nodes, dir: Path, up: Path, rest: Path)
  {
    LeadsTo(fs, dir, up) && AllNames(rest) && rest != [] && up + [rest[0]] !in fs
  }

  lemma {:induction false} MissingParent(fs: Nodes, dir: Path, up: Path, rest: Path)
    requires MissingFrom(fs, dir, up, rest) && |rest| > 1
    ensures MissingFrom(fs, dir, up, Parent(rest))
  {
  }

  /** A missing path does not resolve; one with a missing parent resolves to nothing at all. */
  lemma {:induction false} MissingDoesNotResolve(fs: Nodes, dir: Path, up: Path, rest: Path)
    requires MissingFrom(fs, dir, up, rest)
    ensures Resolve(fs, dir + rest) == if |rest| == 1 then Absent(up + rest) else Stuck(ENOENT)
  {
    WalkContinues(fs, [], dir, rest, 0, KERNEL_LINKS);
    assert IsName(rest[0]);
    if |rest| == 1 { assert rest == [rest[0]]; }
  }

  lemma {:induction false} DirectoryAdded(fs: Nodes, p: Path, mode: Mode)
    requires Tree(fs) && p != [] && IsName(Last(p)) && IsDirectory(fs, Parent(p))
    ensures Tree(fs[p := Dir(mode)])
  {
    var after := fs[p := Dir(mode)];
    forall q | q in after && q != []
      ensures IsName(Last(q)) && IsDirectory(after, Parent(q))
    {
      if q != p { assert IsDirectory(fs, Parent(q)); }
    }
  }

  lemma {:induction false} FilledIsTree(fs: Nodes, path: Path, a: nat, mode: Mode)
    requires Tree(fs) && AllNames(path) && a <= |path| && IsDirectory(fs, path[..a])
    ensures Tree(Filled(fs, path, a, mode)) && IsDirectory(Filled(fs, path, a, mode), path)
    decreases |path|
  {
    if |path| <= a {
      assert path[..a] == path;
    } else {
      assert Parent(path)[..a] == path[..a];
      FilledIsTree(fs, Parent(path), a, mode);
      DirectoryAdded(Filled(fs, Parent(path), a, mode), path, mode);
    }
  }

  /** A prefix of the path that is longer than `a`. */
  predicate Between(a: nat, q: Path, path: Path)
  {
    a < |q| && q <= path
  }

  /** Only the missing directories are added. */
  lemma {:induction false} FilledAdds(fs: Nodes, path: Path, a: nat, mode: Mode)
    requires a <= |path|
    ensures var filled := Filled(fs, path, a, mode);
            && (forall q :: q in filled <==> q in fs || Between(a, q, path))
            && (forall q :: Between(a, q, path) ==> filled[q] == Dir(mode))
            && (forall q :: q in fs && !Between(a, q, path) ==> filled[q] == fs[q])
    decreases |path|
  {
    if |path| > a {
      FilledAdds(fs, Parent(path), a, mode);
      forall q
        ensures Between(a, q, path) <==> q == path || Between(a, q, Parent(path))
      {
        PrefixStep(q, path);
      }
    }
  }

  lemma PrefixStep(q: Path, path: Path)
    requires path != []
    ensures q <= path <==> q == path || q <= Parent(path)
  {
    if q <= path && q != path {
      assert q == path[..|q|] == Parent(path)[..|q|];
    }
    if q <= Parent(path) {
      assert q == Parent(path)[..|q|] == path[..|q|];
    }
  }

  /** What lies above an existing object exists. */
  lemma {:induction false} AboveIsThere(fs: Nodes, top: Path, q: Path)
    requires Tree(fs) && q in fs && top <= q
    ensures top in fs
  {
    if |top| < |q| {
      PrefixesAreDirectories(fs, q, |top|);
      assert q[..|top|] == top;
    } else {
      assert q == top;
    }
  }

  /** Nothing that would have to be made is there. */
  lemma {:induction false} NothingBetween(fs: Nodes, dir: Path, up: Path, rest: Path, q: Path)
    requires Tree(fs) && MissingFrom(fs, dir, up, rest) && Between(|up|, q, up + rest)
    ensures q !in fs
  {
    assert q[..|up| + 1] == (up + rest)[..|up| + 1] == up + [rest[0]];
    if q in fs { AboveIsThere(fs, up + [rest[0]], q); }
  }

  /** Making the missing directories leaves everything else as it was. */
  lemma {:induction false} FilledGrows(fs: Nodes, dir: Path, up: Path, rest: Path, mode: Mode)
    requires Tree(fs) && MissingFrom(fs, dir, up, rest)
    ensures var made := Filled(fs, up + rest, |up|, mode); Grows(fs, made) && LeadsTo(made, dir, up)
  {
    var made := Filled(fs, up + rest, |up|, mode);
    FilledAdds(fs, up + rest, |up|, mode);
    forall q | q in fs
      ensures q in made && made[q] == fs[q]
    {
      if Between(|up|, q, up + rest) { NothingBetween(fs, dir, up, rest, q); }
    }
    WalkGrows(fs, made, [], dir, 0, KERNEL_LINKS);
  }

  lemma {:induction false} FilledParents(fs: Nodes, dir: Path, up: Path, rest: Path, mode: Mode)
    requires Tree(fs) && MissingFrom(fs, dir, up, rest) && |rest| > 1
    ensures var made := Filled(fs, up + Parent(rest), |up|, mode);
            LeadsTo(made, dir, up) && ParentsReady(made, up, rest) && up + rest !in made
  {
    var above := Parent(rest);
    var made := Filled(fs, up + above, |up|, mode);
    MissingParent(fs, dir, up, rest);
    FilledGrows(fs, dir, up, above, mode);
    FilledAdds(fs, up + above, |up|, mode);
    NothingBetween(fs, dir, up, rest, up + rest);
    forall i | 0 <= i < |rest|
      ensures IsDirectory(made, up + rest[..i])
    {
      if i == 0 {
        assert up + rest[..0] == up;
      } else {
        assert rest[..i] == above[..i];
        assert (up + above)[..|up| + i] == up + above[..i];
        assert Between(|up|, up + rest[..i], up + above);
      }
    }
  }

  /** A missing path is still missing when its parents have been made, and has a slot there. */
  lemma {:induction false} FilledSlot(fs: Nodes, dir: Path, up: Path, rest: Path, mode: Mode)
    requires Tree(fs) && MissingFrom(fs, dir, up, rest)
    ensures var made := Filled(fs, up + Parent(rest), |up|, mode);
            up + rest !in made && Slot(made, dir + rest) == Some(up + rest)
  {
    if |rest| == 1 {
      assert up + Parent(rest) == up && rest == [rest[0]] && rest[..0] == [];
      assert up + rest[..0] == up;
      ResolveBelow(fs, dir, up, rest);
    } else {
      FilledParents(fs, dir, up, rest, mode);
      ResolveBelow(Filled(fs, up + Parent(rest), |up|, mode), dir, up, rest);
    }
  }

  /** os.MkdirAll makes a missing path with all its missing parents, where the existing part leads. */
  lemma {:induction false} MkdirAllFills(fs: Nodes, dir: Path, up: Path, rest: Path, mode: Mode)
    requires Tree(fs) && MissingFrom(fs, dir, up, rest)
    ensures MkdirAll(fs, dir + rest, mode) == Change(Filled(fs, up + rest, |up|, mode), None)
    decreases |rest|
  {
    var above := Parent(rest);
    assert Parent(dir + rest) == dir + above && Parent(up + rest) == up + above;
    MissingDoesNotResolve(fs, dir, up, rest);
    FilledSlot(fs, dir, up, rest, mode);
    if |rest| == 1 {
      assert dir + above == dir && up + above == up;
    } else {
      MissingParent(fs, dir, up, rest);
      MkdirAllFills(fs, dir, up, above, mode);
    }
    MkdirAllStep(fs, dir + rest, Filled(fs, up + above, |up|, mode), up + rest, mode);
  }

  /** The last directory, once its parents have been made. */
  lemma {:induction false} MkdirAllStep(fs: Nodes, path: Path, made: Nodes, loc: Path, mode: Mode)
    requires path != [] && !Resolve(fs, path).Found? && MkdirAll(fs, Parent(path), mode) == Change(made, None)
    requires Slot(made, path) == Some(loc) && loc !in made
    ensures MkdirAll(fs, path, mode) == Change(made[loc := Dir(mode)], None)
  {
  }

  /** The entries after the first see the same file system when the first leads to the same. */
  lemma {:induction false} SameAfterFirst(a: Nodes, b: Nodes, dir: Path, umask: Mode, es: seq<Entry>)
    requires es != [] && Step(a, dir, umask, es[0]) == Step(b, dir, umask, es[0])
    ensures Replay(a, dir, umask, es) == Replay(b, dir, umask, es)
  {
    if |es| == 1 {
      assert es[..0] == [];
    } else {
      SameAfterFirst(a, b, dir, umask, es[..|es| - 1]);
    }
  }

  /** Extracting to a destination that is not there: nothing happens for an empty archive, a leading
      file or link fails and changes nothing, and a leading directory creates the destination, with
      all its missing parents, where its existing part leads, and everything is extracted. */
  lemma {:induction false} MissingDestination(before: Nodes, dir: Path, up: Path, rest: Path, umask: Mode,
                                              es: seq<Entry>)
    requires Tree(before) && MissingFrom(before, dir, up, rest) && Replayable(es)
    ensures var dst, top, r := dir + rest, up + rest, Replay(before, dir + rest, umask, es);
            && (r.err.None? <==> es == [] || es[0].h.flag.TypeDir?)
            && (es == [] || !es[0].h.flag.TypeDir? ==> r.fs == before)
            && (es != [] && es[0].h.flag.TypeDir? ==>
                  var made := Filled(before, top, |up|, Masked(es[0].h.mode, umask));
                  && LeadsTo(made, dst, top) && EmptyDirectory(made, top)
                  && Overlaid(made, r.fs, top, umask, es))
  {
    if es != [] {
      FirstAtTop(es);
      if es[0].h.flag.TypeDir? {
        DirectoryFirst(before, dir, up, rest, umask, es);
      } else {
        assert es[..1][..0] == [] && es[..1] == [es[0]];
        NoDirectoryFirst(before, dir, up, rest, umask, es[0]);
        ErrorSticks(before, dir + rest, umask, es, 1);
      }
    }
  }

  lemma {:induction false} FirstAtTop(es: seq<Entry>)
    requires Replayable(es) && es != []
    ensures GoodEntry(es[0]) && |PathOf(es[0])| == 1 && PathOf(es[0]) == [PathOf(es[0])[0]]
  {
    assert GoodEntry(es[0]) && ParentCameFirst(es, 0);
  }

  lemma {:induction false} MissingChild(fs: Nodes, dir: Path, up: Path, rest: Path, n: string)
    requires MissingFrom(fs, dir, up, rest) && IsName(n)
    ensures MissingFrom(fs, dir, up, rest + [n])
    ensures dir + rest + [n] == dir + (rest + [n]) && up + rest + [n] == up + (rest + [n])
  {
  }

  lemma {:induction false} NoDirectoryFirst(before: Nodes, dir: Path, up: Path, rest: Path, umask: Mode, e: Entry)
    requires MissingFrom(before, dir, up, rest) && GoodEntry(e) && |PathOf(e)| == 1
    requires !e.h.flag.TypeDir?
    ensures Step(before, dir + rest, umask, e) == Replayed(before, Some(Failed(ENOENT)))
  {
    var p, dst := PathOf(e), dir + rest;
    assert p == [p[0]] && IsName(p[0]);
    ReplayedName([], dst, p, false);
    MissingChild(before, dir, up, rest, p[0]);
    MissingDoesNotResolve(before, dir, up, rest + p);
    MissingDoesNotResolve(before, dir, up, rest);
    assert Parent(dst + p) == dst;
  }

  /** The destination after the missing directories have been made is an empty directory. */
  lemma {:induction false} FilledIsEmpty(before: Nodes, dir: Path, up: Path, rest: Path, mode: Mode)
    requires Tree(before) && MissingFrom(before, dir, up, rest)
    ensures var made, top := Filled(before, up + rest, |up|, mode), up + rest;
            Tree(made) && EmptyDirectory(made, top) && LeadsTo(made, dir + rest, top)
  {
    var made, top := Filled(before, up + rest, |up|, mode), up + rest;
    LocationsAreNames(before, up);
    assert AllNames(top) && top[..|up|] == up;
    FilledIsTree(before, top, |up|, mode);
    FilledAdds(before, top, |up|, mode);
    assert Between(|up|, top, top);
    forall q | q in made && top <= q
      ensures q == top
    {
      if q in before { AboveIsThere(before, top, q); NothingBetween(before, dir, up, rest, top); }
    }
    FilledResolves(before, dir, up, rest, mode);
  }

  lemma {:induction false} FilledResolves(before: Nodes, dir: Path, up: Path, rest: Path, mode: Mode)
    requires Tree(before) && MissingFrom(before, dir, up, rest)
    ensures LeadsTo(Filled(before, up + rest, |up|, mode), dir + rest, up + rest)
  {
    var made := Filled(before, up + rest, |up|, mode);
    FilledGrows(before, dir, up, rest, mode);
    FilledAdds(before, up + rest, |up|, mode);
    forall i | 0 <= i <= |rest|
      ensures IsDirectory(made, up + rest[..i])
    {
      if i == 0 {
        assert up + rest[..0] == up;
      } else {
        assert (up + rest)[..|up| + i] == up + rest[..i];
        assert Between(|up|, up + rest[..i], up + rest);
      }
    }
    assert up + rest[..|rest|] == up + rest;
    ResolveBelow(made, dir, up, rest);
    LocationsInNames(dir, rest);
  }

  lemma LocationsInNames(dir: Path, rest: Path)
    requires AllNames(dir) && AllNames(rest)
    ensures AllNames(dir + rest)
  {
  }

  lemma {:induction false} DirectoryFirst(before: Nodes, dir: Path, up: Path, rest: Path, umask: Mode, es: seq<Entry>)
    requires Tree(before) && MissingFrom(before, dir, up, rest) && Replayable(es)
    requires es != [] && es[0].h.flag.TypeDir? && |PathOf(es[0])| == 1 && GoodEntry(es[0])
    ensures var made, top := Filled(before, up + rest, |up|, Masked(es[0].h.mode, umask)), up + rest;
            var r := Replay(before, dir + rest, umask, es);
            && r.err.None? && LeadsTo(made, dir + rest, top) && EmptyDirectory(made, top)
            && Overlaid(made, r.fs, top, umask, es)
  {
    var e, mode := es[0], Masked(es[0].h.mode, umask);
    var dst, top, made := dir + rest, up + rest, Filled(before, up + rest, |up|, mode);
    FilledIsEmpty(before, dir, up, rest, mode);
    FirstDirectory(before, dir, up, rest, umask, e);
    SameAfterFirst(before, made, dst, umask, es);
    ExtractsIntoEmpty(made, dst, top, umask, es);
  }

  /** The first directory entry does the same to a missing destination as to the one it makes. */
  lemma {:induction false} FirstDirectory(before: Nodes, dir: Path, up: Path, rest: Path, umask: Mode, e: Entry)
    requires Tree(before) && MissingFrom(before, dir, up, rest)
    requires e.h.flag.TypeDir? && |PathOf(e)| == 1 && GoodEntry(e)
    ensures var made := Filled(before, up + rest, |up|, Masked(e.h.mode, umask));
            Step(before, dir + rest, umask, e) == Step(made, dir + rest, umask, e)
  {
    var mode, p := Masked(e.h.mode, umask), PathOf(e);
    var dst, top, made := dir + rest, up + rest, Filled(before, up + rest, |up|, mode);
    assert p == [p[0]] && IsName(p[0]);
    ReplayedName([], dst, p, true);
    MissingChild(before, dir, up, rest, p[0]);
    MkdirAllFills(before, dir, up, rest + p, mode);
    assert Parent(top + p) == top;
    FilledIsEmpty(before, dir, up, rest, mode);
    NothingThere(made, top, p);
    assert top + p[..0] == top;
    StepExact(made, dst, top, umask, e);
  }

  // ---------------------------------------------------------------- any other destination

  predicate Leads(fs: Nodes, dir: Path)
  {
    var w := Resolve(fs, dir); w.Found? && IsDirectory(fs, w.loc)
  }

  /** `dir` leads to the directory `up`; there the first of the names `rest` is taken, and does not
      lead to a directory. */
  ghost predicate BlockedAt(fs: Nodes, dir: Path, up: Path, rest: Path)
  {
    && LeadsTo(fs, dir, up) && AllNames(rest) && rest != []
    && up + [rest[0]] in fs && !Leads(fs, dir + [rest[0]])
  }

  /** The destination can be made: from some component on it is free. */
  ghost predicate CanBeMade(fs: Nodes, dst: Path)
  {
    exists a: nat, up :: a < |dst| && MissingFrom(fs, dst[..a], up, dst[a..])
  }

  /** Where a path does not lead to a directory, no name can be followed beyond it. */
  lemma {:induction false} WalkStops(fs: Nodes, done: Path, a: seq<string>, b: Path, links: nat, limit: nat)
    requires Tree(fs) && IsDirectory(fs, done) && links <= limit && b != [] && IsName(b[0])
    requires var w := Walk(fs, done, a, links, limit); !(w.Found? && IsDirectory(fs, w.loc))
    ensures Walk(fs, done, a + b, links, limit) == Stuck(Blame(Walk(fs, done, a, links, limit)))
    decreases limit - links, |a|
  {
    if a != [] {
      var c, rest := a[0], a[1..];
      var p := done + [c];
      assert (a + b)[0] == c && (a + b)[1..] == rest + b;
      if c == "" || c == "." {
        WalkStops(fs, done, rest, b, links, limit);
      } else if c == ".." {
        if done != [] { AboveIsDirectory(fs, done); }
        WalkStops(fs, if done == [] then [] else Parent(done), rest, b, links, limit);
      } else if p in fs && fs[p].Dir? {
        WalkStops(fs, p, rest, b, links, limit);
      } else if p in fs && fs[p].Link? && links < limit {
        var parts := Split(fs[p].text, '/');
        WalkStops(fs, if Rooted(fs[p].text) then [] else done, parts + rest, b, links + 1, limit);
        assert parts + rest + b == parts + (rest + b);
      }
    }
  }

  lemma {:induction false} AboveIsDirectory(fs: Nodes, p: Path)
    requires Tree(fs) && p in fs && p != []
    ensures IsDirectory(fs, Parent(p))
  {
  }

  lemma {:induction false} StuckBeyond(fs: Nodes, path: Path, more: Path)
    requires Tree(fs) && !Leads(fs, path) && more != [] && IsName(more[0])
    ensures Resolve(fs, path + more) == Stuck(Blame(Resolve(fs, path)))
  {
    WalkStops(fs, [], path, more, 0, KERNEL_LINKS);
  }

  lemma {:induction false} NothingBeyond(fs: Nodes, dir: Path, rest: Path)
    requires Tree(fs) && |rest| > 1 && IsName(rest[1]) && !Leads(fs, dir + [rest[0]])
    ensures Resolve(fs, dir + rest).Stuck?
  {
    var more := rest[1..];
    assert dir + rest == dir + [rest[0]] + more;
    assert more[0] == rest[1];
    StuckBeyond(fs, dir + [rest[0]], more);
  }

  /** An entry for the destination itself, such as "./": a directory is accepted, anything else is
      refused, and nothing changes. */
  lemma {:induction false} EntryForDestination(before: Nodes, dst: Path, top: Path, umask: Mode, e: Entry)
    requires Tree(before) && LeadsTo(before, dst, top) && Target(dst, e.h.name) == dst && Acceptable(e)
    ensures Step(before, dst, umask, e)
         == Replayed(before, if e.h.flag.TypeDir? then None
                             else Some(Failed(if e.h.flag.TypeReg? then EISDIR else EEXIST)))
  {
    if dst != [] && e.h.flag.TypeSymlink? {
      PlaceIsTaken(before, dst);
    }
  }

  /** Where a path leads to something, its last name is taken. */
  lemma {:induction false} PlaceIsTaken(fs: Nodes, path: Path)
    requires Tree(fs) && path != [] && AllNames(path) && Leads(fs, path)
    ensures Slot(fs, path).Some? && Slot(fs, path).value in fs
  {
    var up := Parent(path);
    assert path == up + [Last(path)] && IsName(Last(path));
    if !Leads(fs, up) { StuckBeyond(fs, up, [Last(path)]); }
    WalkContinues(fs, [], up, [Last(path)], 0, KERNEL_LINKS);
  }

  lemma {:induction false} DotEntries(dst: Path, name: string)
    requires AllNames(dst) && name in ["", ".", "./"]
    ensures Target(dst, name) == dst
  {
    TargetIsLexical(dst, name);
    SplitWithoutSeparator(".", '/');
    SplitWithoutSeparator("", '/');
    assert "./" == "." + ['/'] + "";
    SplitAtSeparator(".", "", '/');
    SquashOne(dst, ".");
    SquashOne(dst, "");
    SquashAppend(true, dst, ["."], [""]);
    assert ["."] + [""] == [".", ""];
  }

  /** Below a blocked name nothing resolves. */
  lemma {:induction false} BlockedDoesNotLead(fs: Nodes, dir: Path, up: Path, rest: Path)
    requires Tree(fs) && BlockedAt(fs, dir, up, rest)
    ensures !Leads(fs, dir + rest) && (|rest| > 1 ==> Resolve(fs, dir + rest).Stuck?)
  {
    if |rest| == 1 {
      assert rest == [rest[0]];
    } else {
      NothingBeyond(fs, dir, rest);
    }
  }

  lemma {:induction false} BlockedChild(fs: Nodes, dir: Path, up: Path, rest: Path, n: string)
    requires BlockedAt(fs, dir, up, rest) && IsName(n)
    ensures BlockedAt(fs, dir, up, rest + [n]) && dir + rest + [n] == dir + (rest + [n])
  {
  }

  /** os.MkdirAll makes nothing where the way is blocked. */
  lemma {:induction false} MkdirAllBlocked(fs: Nodes, dir: Path, up: Path, rest: Path, mode: Mode)
    requires Tree(fs) && BlockedAt(fs, dir, up, rest)
    ensures var c := MkdirAll(fs, dir + rest, mode); c.fs == fs && c.err.Some?
    decreases |rest|
  {
    var above := Parent(rest);
    assert Parent(dir + rest) == dir + above;
    BlockedDoesNotLead(fs, dir, up, rest);
    if |rest| == 1 {
      assert rest == [rest[0]] && dir + above == dir;
      assert up + rest[..0] == up;
      ResolveBelow(fs, dir, up, rest);
    } else {
      MkdirAllBlocked(fs, dir, up, above, mode);
    }
  }

  /** Whatever the first entry is, it fails where the way is blocked. */
  lemma {:induction false} BlockedStep(before: Nodes, dir: Path, up: Path, rest: Path, umask: Mode, e: Entry)
    requires Tree(before) && BlockedAt(before, dir, up, rest) && GoodEntry(e) && |PathOf(e)| == 1
    ensures var r := Step(before, dir + rest, umask, e); r.fs == before && r.err.Some?
  {
    var p, dst := PathOf(e), dir + rest;
    assert p == [p[0]] && IsName(p[0]) && Parent(dst + p) == dst;
    LocationsInNames(dir, rest);
    ReplayedName([], dst, p, e.h.flag.TypeDir?);
    BlockedDoesNotLead(before, dir, up, rest);
    BlockedChild(before, dir, up, rest, p[0]);
    BlockedDoesNotLead(before, dir, up, rest + p);
    MkdirAllBlocked(before, dir, up, rest + p, Masked(e.h.mode, umask));
  }

  /** The error for a destination that does not lead to a directory: what stops its resolution, or
      that it is no directory. A directory entry reports the latter too. */
  lemma {:induction false} NotADirectoryError(before: Nodes, dst: Path, umask: Mode, e: Entry)
    requires Tree(before) && AllNames(dst) && !Leads(before, dst)
    requires GoodEntry(e) && |PathOf(e)| == 1 && (e.h.flag.TypeDir? ==> Resolve(before, dst).Found?)
    ensures Step(before, dst, umask, e) == Replayed(before, Some(Failed(Blame(Resolve(before, dst)))))
  {
    var p, mode := PathOf(e), Masked(e.h.mode, umask);
    assert p == [p[0]] && IsName(p[0]) && Parent(dst + p) == dst;
    ReplayedName([], dst, p, e.h.flag.TypeDir?);
    StuckBeyond(before, dst, p);
    if e.h.flag.TypeDir? {
      assert MkdirAll(before, dst, mode) == Change(before, Some(ENOTDIR));
      assert MkdirAll(before, dst + p, mode) == Change(before, Some(ENOTDIR));
    }
    assert Slot(before, dst + p) == None && NoSlot(before, dst + p) == Blame(Resolve(before, dst));
    assert Target(dst, e.h.name) == dst + p;
  }

  /** The longest part of a path that leads to a directory. */
  lemma {:induction false} LongestLead(fs: Nodes, dst: Path) returns (a: nat, up: Path)
    requires Tree(fs) && AllNames(dst)
    ensures a <= |dst| && LeadsTo(fs, dst[..a], up)
    ensures if a < |dst| then !Leads(fs, dst[..a + 1]) else Leads(fs, dst)
    decreases |dst|
  {
    if Leads(fs, dst) {
      a, up := |dst|, Resolve(fs, dst).loc;
      assert dst[..a] == dst;
    } else {
      a, up := LongestLead(fs, Parent(dst));
      assert Parent(dst)[..a] == dst[..a];
      if a < |Parent(dst)| {
        assert Parent(dst)[..a + 1] == dst[..a + 1];
      } else {
        assert dst[..a + 1] == dst;
      }
    }
  }

  /** A path of names leads to a directory, can be made, or is blocked. */
  lemma {:induction false} BlockedOrFree(fs: Nodes, dst: Path) returns (a: nat, up: Path)
    requires Tree(fs) && AllNames(dst) && !Leads(fs, dst)
    ensures a < |dst|
    ensures MissingFrom(fs, dst[..a], up, dst[a..]) || BlockedAt(fs, dst[..a], up, dst[a..])
  {
    a, up := LongestLead(fs, dst);
    assert dst[..a] + [dst[a]] == dst[..a + 1];
  }

  /** Extraction to any path that does not lead to a directory: it succeeds if and only if the
      archive is empty, or starts with a directory and the path can be made. When it fails, nothing
      has changed. */
  lemma {:induction false} NotADirectory(before: Nodes, dst: Path, umask: Mode, es: seq<Entry>)
    requires Tree(before) && AllNames(dst) && !Leads(before, dst) && Replayable(es)
    ensures var r := Replay(before, dst, umask, es);
            && (r.err.None? <==> es == [] || (es[0].h.flag.TypeDir? && CanBeMade(before, dst)))
            && (r.err.Some? ==> r.fs == before)
  {
    if CanBeMade(before, dst) {
      var a: nat, up :| a < |dst| && MissingFrom(before, dst[..a], up, dst[a..]);
      assert dst[..a] + dst[a..] == dst;
      MissingDestination(before, dst[..a], up, dst[a..], umask, es);
    } else if es != [] {
      var a, up := BlockedOrFree(before, dst);
      assert dst[..a] + dst[a..] == dst;
      FirstAtTop(es);
      BlockedStep(before, dst[..a], up, dst[a..], umask, es[0]);
      assert es[..1][..0] == [] && es[..1] == [es[0]];
      ErrorSticks(before, dst, umask, es, 1);
    }
  }

  // ---------------------------------------------------------------- what failed runs leave

  /** Replaying entries whose last body is cut short does what replaying the bodies as they are
      does, but reports the cut. */
  lemma {:induction false} CutReplay(fs: Nodes, dir: Path, umask: Mode, es: seq<Entry>)
    requires Framed(es) && forall i :: 0 <= i < |es| ==>
               if Complete(es[i]) then Trimmed(es[i]) == es[i] else es[i].h.flag.TypeReg?
    requires Replay(fs, dir, umask, TrimmedAll(es)).err.None?
    ensures Replay(fs, dir, umask, es)
         == Replayed(Replay(fs, dir, umask, TrimmedAll(es)).fs,
                     if Outstanding(es) > 0 then Some(UnexpectedEof) else None)
  {
    if es != [] {
      var k, r := |es| - 1, TrimmedAll(es);
      assert r[..k] == es[..k];
      CutStep(Replay(fs, dir, umask, es[..k]).fs, dir, umask, es[k]);
    }
  }

  lemma {:induction false} CutStep(fs: Nodes, dir: Path, umask: Mode, e: Entry)
    requires if Complete(e) then Trimmed(e) == e else |e.body| < Payload(e.h) && e.h.flag.TypeReg?
    requires Step(fs, dir, umask, Trimmed(e)).err.None?
    ensures Step(fs, dir, umask, e)
         == Replayed(Step(fs, dir, umask, Trimmed(e)).fs, if Complete(e) then None else Some(UnexpectedEof))
  {
  }

  /** What an entry makes of its place does not depend on the size it announces. */
  lemma {:induction false} TrimmedOverlay(before: Nodes, after: Nodes, top: Path, umask: Mode, es: seq<Entry>)
    requires Overlaid(before, after, top, umask, TrimmedAll(es)) && PathsOf(TrimmedAll(es)) == PathsOf(es)
    ensures Overlaid(before, after, top, umask, es)
  {
    var r := TrimmedAll(es);
    forall i | 0 <= i < |es|
      ensures PathOf(es[i]) == PathOf(r[i])
      ensures Landed(before, top + PathOf(es[i]), umask, es[i]) == Landed(before, top + PathOf(r[i]), umask, r[i])
    {
      assert PathsOf(r)[i] == PathsOf(es)[i];
    }
    assert Targets(top, r) == Targets(top, es);
  }

  /** What any run leaves, whatever its outcome, extracts to exactly what was written: the part of
      the source before the stop. Only after a file that shrank is there an error; any other run
      that stopped half-way is not noticed. */
  lemma {:induction false} RunExtracts(worlds: seq<Nodes>, root: Path, es: seq<Entry>,
                                       err: Option<CompressError>, stop: Path, half: bool,
                                       before: Nodes, dir: Path, top: Path, umask: Mode)
    requires Timeline(worlds) && WalkWrote(worlds, root, [], es, err, stop, half) && Framed(es)
    requires err == Some(FileShrank) <==> Outstanding(es) > 0
    requires LeadsTo(before, dir, top) && EmptyDirectory(before, top)
    ensures var r := Replay(before, dir, umask, es);
            var all := Below(worlds[0].Keys, root);
            && (r.err.None? <==> err != Some(FileShrank))
            && (r.err.Some? ==> r.err.value == UnexpectedEof)
            && Overlaid(before, r.fs, top, umask, es)
            && Below(r.fs.Keys, top) == if err.None? then all else UpTo(all, stop, half)
  {
    var trimmed := TrimmedAll(es);
    RunIsReplayable(worlds, root, es, err, stop, half);
    ExtractsIntoEmpty(before, dir, top, umask, trimmed);
    var after := Replay(before, dir, umask, trimmed).fs;
    forall i | 0 <= i < |es|
      ensures if Complete(es[i]) then Trimmed(es[i]) == es[i] else es[i].h.flag.TypeReg?
    {
      DescribedIsGood(worlds, root, es[i]);
    }
    CutReplay(before, dir, umask, es);
    TrimmedOverlay(before, after, top, umask, es);
    WholePart(worlds[0].Keys, root);
    ExtractedPaths(before, after, top, umask, trimmed);
    SetOfPaths(trimmed, if err.None? then Below(worlds[0].Keys, root)
                        else UpTo(Below(worlds[0].Keys, root), stop, half));
  }

  lemma {:induction false} SetOfPaths(es: seq<Entry>, s: set<Path>)
    requires Enumerates(PathsOf(es), s)
    ensures PathSet(es) == s
  {
  }

  /** Below a destination that was empty there are exactly the paths of the entries. */
  lemma {:induction false} ExtractedPaths(before: Nodes, after: Nodes, top: Path, umask: Mode, es: seq<Entry>)
    requires Replayable(es) && EmptyDirectory(before, top) && Overlaid(before, after, top, umask, es)
    ensures Below(after.Keys, top) == PathSet(es)
  {
    forall p
      ensures p in Below(after.Keys, top) <==> p in PathSet(es)
    {
      BelowMember(after.Keys, top, p);
      TargetMember(top, es, p);
      if p != [] { NothingThere(before, top, p); }
      if p in PathsOf(es) {
        var i :| 0 <= i < |es| && PathsOf(es)[i] == p;
        assert GoodEntry(es[i]);
      }
    }
  }

  /** A body cut short is always noticed, whatever the destination holds. */
  lemma {:induction false} CutArchiveFails(fs: Nodes, dir: Path, umask: Mode, es: seq<Entry>)
    requires Framed(es) && Outstanding(es) > 0
    ensures Replay(fs, dir, umask, es).err.Some?
  {
    var e := es[|es| - 1];
    assert e.h.flag.TypeReg? || e.h.flag.TypeOther?;
  }
}
