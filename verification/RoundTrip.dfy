/** Extracting an archive into an empty directory: the round trip, and every prefix of it. */
module RoundTrips {
  import opened Filepath
  import opened Disk
  import opened Tar
  import opened Archive
  import opened Replaying

  /** An existing directory with nothing in it. */
  ghost predicate EmptyDirectory(fs: Nodes, top: Path)
  {
    IsDirectory(fs, top) && forall q :: q in fs && top <= q ==> q == top
  }

  /** What becomes of the source object at `p` when it is extracted as something new. */
  function CopyOf(fs: Nodes, root: Path, p: Path, umask: Mode): Node
    requires root + p in fs
  {
    match fs[root + p]
    case Dir(mode) => Dir(Masked(mode, umask))
    case File(mode, bytes) => File(Masked(mode, umask), bytes)
    case Link(_) => Link(EntryFor(fs, root, p).h.linkname)
    case Other(opens) => Other(opens)
  }

  /** Below `top` there is exactly the copy of the source paths in `s`, and nothing else has changed. */
  ghost predicate CopiedOnly(src: Nodes, root: Path, s: set<Path>, before: Nodes, after: Nodes, top: Path, umask: Mode)
  {
    && (forall p :: p in s ==> root + p in src && top + p in after && after[top + p] == CopyOf(src, root, p, umask))
    && (forall p :: p != [] ==> (top + p in after <==> p in s))
    && (forall q :: q in before ==> q in after && after[q] == before[q])
    && (forall q :: q in after && !(top <= q) ==> q in before)
  }

  ghost function PathSet(es: seq<Entry>): set<Path>
  {
    set p | p in PathsOf(es)
  }

  lemma {:induction false} NothingThere(fs: Nodes, top: Path, p: Path)
    requires EmptyDirectory(fs, top) && p != []
    ensures top + p !in fs
  {
    assert top <= top + p;
    assert |top + p| != |top|;
  }

  /** Any replayable archive extracts into an empty directory without an error. */
  lemma {:induction false} ExtractsIntoEmpty(before: Nodes, dir: Path, top: Path, umask: Mode, es: seq<Entry>)
    requires Replayable(es) && LeadsTo(before, dir, top) && EmptyDirectory(before, top)
    ensures var r := Replay(before, dir, umask, es);
            r.err.None? && AllFit(before, top, es) && Overlaid(before, r.fs, top, umask, es)
  {
    forall i | 0 <= i < |es|
      ensures top + PathOf(es[i]) !in before
    {
      assert GoodEntry(es[i]);
      NothingThere(before, top, PathOf(es[i]));
    }
    OverlayLaw(before, dir, top, umask, es);
  }

  lemma {:induction false} TargetMember(top: Path, es: seq<Entry>, p: Path)
    ensures top + p in Targets(top, es) <==> p in PathsOf(es)
  {
    if top + p in Targets(top, es) {
      var i :| 0 <= i < |es| && top + p == top + PathOf(es[i]);
      assert p == (top + p)[|top|..] == PathOf(es[i]) == PathsOf(es)[i];
    }
    if p in PathsOf(es) {
      var i :| 0 <= i < |es| && PathsOf(es)[i] == p;
      assert top + PathOf(es[i]) in Targets(top, es);
    }
  }

  /** A place an entry landed at lies in a directory. */
  lemma {:induction false} LandedInDirectory(before: Nodes, after: Nodes, top: Path, umask: Mode,
                                             es: seq<Entry>, i: nat)
    requires Replayable(es) && AllFit(before, top, es) && Overlaid(before, after, top, umask, es)
    requires i < |es| && IsDirectory(after, top)
    ensures var q := top + PathOf(es[i]); q != [] && IsName(Last(q)) && IsDirectory(after, Parent(q))
  {
    var p := PathOf(es[i]);
    var q := top + p;
    assert GoodEntry(es[i]) && ParentCameFirst(es, i);
    assert Parent(q) == top + Parent(p) && Last(q) == Last(p);
    if |p| > 1 {
      var j :| 0 <= j < i && es[j].h.flag.TypeDir? && PathOf(es[j]) == Parent(p);
      DirectoryLanded(before, after, top, umask, es, j);
    } else {
      assert Parent(q) == top;
    }
  }

  /** Replaying only adds objects below directories, so a tree stays a tree. */
  lemma {:induction false} OverlayIsTree(before: Nodes, after: Nodes, dir: Path, top: Path, umask: Mode, es: seq<Entry>)
    requires Tree(before) && Replayable(es) && LeadsTo(before, dir, top)
    requires AllFit(before, top, es) && Overlaid(before, after, top, umask, es)
    ensures Tree(after)
  {
    OverlayGrows(before, after, dir, top, umask, es);
    forall q | q in after && q != []
      ensures IsName(Last(q)) && IsDirectory(after, Parent(q))
    {
      if q in before {
        assert IsDirectory(before, Parent(q));
      } else {
        var i :| 0 <= i < |es| && q == top + PathOf(es[i]);
        LandedInDirectory(before, after, top, umask, es, i);
      }
    }
  }

  /** A represented object lands in free space as its copy. */
  lemma {:induction false} CopyLands(src: Nodes, root: Path, e: Entry, before: Nodes, top: Path, umask: Mode)
    requires Represents(src, root, e) && top + PathOf(e) !in before
    ensures Landed(before, top + PathOf(e), umask, e) == CopyOf(src, root, PathOf(e), umask)
  {
  }

  /** Overlaying an empty directory is copying into it. */
  lemma {:induction false} OverlayIsCopy(src: Nodes, root: Path, es: seq<Entry>,
                                         before: Nodes, after: Nodes, top: Path, umask: Mode)
    requires forall i :: 0 <= i < |es| ==> Represents(src, root, es[i])
    requires EmptyDirectory(before, top) && Overlaid(before, after, top, umask, es)
    ensures CopiedOnly(src, root, PathSet(es), before, after, top, umask)
  {
    forall p | p in PathSet(es)
      ensures root + p in src && top + p in after && after[top + p] == CopyOf(src, root, p, umask)
    {
      var i :| 0 <= i < |es| && PathsOf(es)[i] == p;
      assert Represents(src, root, es[i]);
      NothingThere(before, top, p);
      CopyLands(src, root, es[i], before, top, umask);
      assert top + PathOf(es[i]) in Targets(top, es);
    }
    forall p | p != []
      ensures top + p in after <==> p in PathSet(es)
    {
      NothingThere(before, top, p);
      TargetMember(top, es, p);
    }
    forall q | q in Targets(top, es)
      ensures q !in before && top <= q
    {
      var i :| 0 <= i < |es| && q == top + PathOf(es[i]);
      assert Represents(src, root, es[i]);
      NothingThere(before, top, PathOf(es[i]));
    }
  }

  /** The prefix law: replaying the first k entries of an archive into an empty directory leaves
      exactly the source restricted to the first k paths, and that is a tree. With k == |es| this
      is the round trip. */
  lemma {:induction false} PrefixExtracted(src: Nodes, root: Path, es: seq<Entry>, k: nat,
                                           before: Nodes, dir: Path, top: Path, umask: Mode)
    requires Tree(src) && ArchiveOf(src, root, es) && k <= |es|
    requires Tree(before) && LeadsTo(before, dir, top) && EmptyDirectory(before, top)
    ensures var r := Replay(before, dir, umask, es[..k]);
            && r.err.None?
            && CopiedOnly(src, root, PathSet(es[..k]), before, r.fs, top, umask)
            && Tree(r.fs) && LeadsTo(r.fs, dir, top)
  {
    var part := es[..k];
    ArchiveIsReplayable(src, root, es);
    ReplayablePrefix(es, k);
    ExtractsIntoEmpty(before, dir, top, umask, part);
    var after := Replay(before, dir, umask, part).fs;
    OverlayGrows(before, after, dir, top, umask, part);
    OverlayIsTree(before, after, dir, top, umask, part);
    forall i | 0 <= i < k
      ensures Represents(src, root, part[i])
    {
      assert part[i] == es[i];
    }
    OverlayIsCopy(src, root, part, before, after, top, umask);
  }

  /** The round trip: extracting an archive into an empty directory gives exactly the source's
      paths, kinds, bytes and link texts, with modes up to the umask. */
  lemma {:induction false} RoundTrip(src: Nodes, root: Path, es: seq<Entry>,
                                     before: Nodes, dir: Path, top: Path, umask: Mode)
    requires Tree(src) && ArchiveOf(src, root, es)
    requires Tree(before) && LeadsTo(before, dir, top) && EmptyDirectory(before, top)
    ensures var r := Replay(before, dir, umask, es);
            && r.err.None?
            && CopiedOnly(src, root, Below(src.Keys, root), before, r.fs, top, umask)
            && Below(r.fs.Keys, top) == Below(src.Keys, root)
            && Tree(r.fs) && LeadsTo(r.fs, dir, top)
  {
    PrefixExtracted(src, root, es, |es|, before, dir, top, umask);
    assert es[..|es|] == es;
    var after := Replay(before, dir, umask, es).fs;
    assert PathSet(es) == Below(src.Keys, root);
    forall p
      ensures p in Below(after.Keys, top) <==> p in Below(src.Keys, root)
    {
      BelowMember(after.Keys, top, p);
      BelowMember(src.Keys, root, p);
    }
  }
}
