/** What an archive of a directory tree is, independently of how it is made, and what makes an
    archive replayable. */
module Archive {
  import opened Options
  import opened Text
  import opened Filepath
  import opened Disk
  import opened Tar
  import opened Order

  /** The paths strictly below `root`, relative to it. */
  ghost function Below(keys: set<Path>, root: Path): set<Path>
  {
    set q | q in keys && |root| < |q| && root <= q :: q[|root|..]
  }

  lemma BelowMember(keys: set<Path>, root: Path, p: Path)
    ensures p in Below(keys, root) <==> p != [] && root + p in keys
  {
    if p != [] && root + p in keys {
      assert (root + p)[|root|..] == p;
    }
    if p in Below(keys, root) {
      var q :| q in keys && |root| < |q| && root <= q && q[|root|..] == p;
      assert q == root + p;
    }
  }

  /** lstat(2) on a link reports all permission bits. */
  const LINK_MODE: Mode := 0x1FF

  /** The text stored for a link: its fully resolved target, relative to the root. */
  function LinkText(fs: Nodes, root: Path, p: Path): Option<string>
  {
    match EvalSymlinks(fs, root + p)
    case Some(target) => Rel(Absolute(root), Absolute(target))
    case None => None
  }

  /** The entry of one object below the root. */
  function EntryFor(fs: Nodes, root: Path, p: Path): Entry
    requires root + p in fs
  {
    match fs[root + p]
    case Dir(mode) => Entry(Header(EntryName(p, true), TypeDir, mode, 0, ""), [])
    case File(mode, bytes) => Entry(Header(EntryName(p, false), TypeReg, mode, |bytes|, ""), bytes)
    case Link(_) =>
      var text := LinkText(fs, root, p);
      Entry(Header(EntryName(p, false), TypeSymlink, LINK_MODE, 0, if text.Some? then text.value else ""), [])
    case Other(_) => Entry(Header(EntryName(p, false), TypeOther, 0, 0, ""), [])
  }

  /** The objects that can be archived: no devices, and links whose target opens. */
  predicate Archivable(fs: Nodes, loc: Path)
    requires loc in fs
  {
    match fs[loc]
    case Dir(_) => true
    case File(_, _) => true
    case Link(_) => EvalSymlinks(fs, loc).Some? && OpenTarget(fs, loc).Some?
    case Other(_) => false
  }

  /** The path an entry names. */
  function PathOf(e: Entry): Path
  {
    Components(e.h.name)
  }

  function PathsOf(es: seq<Entry>): (ps: seq<Path>)
    ensures |ps| == |es|
    ensures forall i :: 0 <= i < |es| ==> ps[i] == PathOf(es[i])
  {
    seq(|es|, i requires 0 <= i < |es| => PathOf(es[i]))
  }

  /** `es` is the archive of the tree under `root`: every path below the root once, in walk
      order, each with the entry of its object. */
  ghost predicate ArchiveOf(fs: Nodes, root: Path, es: seq<Entry>)
  {
    && Enumerates(PathsOf(es), Below(fs.Keys, root))
    && forall i :: 0 <= i < |es| ==> Represents(fs, root, es[i])
  }

  ghost predicate Represents(fs: Nodes, root: Path, e: Entry)
  {
    var p := PathOf(e);
    p != [] && root + p in fs && Archivable(fs, root + p) && e == EntryFor(fs, root, p)
  }

  /** A name read back from an entry is the path it was made from. */
  lemma {:induction false} EntryPath(fs: Nodes, root: Path, p: Path)
    requires Tree(fs) && root + p in fs && p != []
    ensures AllNames(p) && PathOf(EntryFor(fs, root, p)) == p
  {
    LocationsAreNames(fs, root + p);
    NamesApart(root, p);
    ComponentsOfJoined(p, false);
    ComponentsOfJoined(p, true);
    assert Join(p, '/') + "" == Join(p, '/');
  }

  /** What an entry announces: the path relative to the root, with a slash behind a directory's, the
      kind of the object, its permissions, and the size of its body. */
  lemma {:induction false} EntryAnnounces(fs: Nodes, root: Path, p: Path)
    requires Tree(fs) && root + p in fs && p != []
    ensures var h, name := EntryFor(fs, root, p).h, Rel(Absolute(root), Absolute(root + p));
            && name == Some(Join(p, '/'))
            && h.name == (if fs[root + p].Dir? then name.value + "/" else name.value)
            && (h.flag.TypeDir? <==> fs[root + p].Dir?) && (h.flag.TypeReg? <==> fs[root + p].File?)
            && (h.flag.TypeSymlink? <==> fs[root + p].Link?)
            && h.size == |EntryFor(fs, root, p).body|
            && (fs[root + p].File? ==> h.mode == fs[root + p].mode && EntryFor(fs, root, p).body == fs[root + p].bytes)
            && (fs[root + p].Dir? ==> h.mode == fs[root + p].mode && h.size == 0)
            && (fs[root + p].Link? ==> h.mode == 0x1FF && h.size == 0)
  {
    LocationsAreNames(fs, root + p);
    NamesApart(root, p);
    RelInside(root, p);
    assert Join(p, '/') + "" == Join(p, '/');
  }

  /** Entries follow one another as the walk does: an earlier path leads to the later one, or parts from
      it at a name that is smaller at its first differing character, or ends there. */
  lemma {:induction false} EntriesAscend(fs: Nodes, root: Path, es: seq<Entry>, i: nat, j: nat)
    returns (k: nat, m: nat)
    requires ArchiveOf(fs, root, es) && i < j < |es|
    ensures var p, q := PathOf(es[i]), PathOf(es[j]);
            && k < |q| && k <= |p| && p[..k] == q[..k]
            && (k < |p| ==>
                  m < |q[k]| && m <= |p[k]| && p[k][..m] == q[k][..m] && (m == |p[k]| || p[k][m] < q[k][m]))
  {
    k, m := SortedMeans(PathsOf(es), i, j);
  }

  /** The archive is determined by the tree as a finite map: there is at most one. */
  lemma {:induction false} ArchiveUnique(fs: Nodes, root: Path, a: seq<Entry>, b: seq<Entry>)
    requires ArchiveOf(fs, root, a) && ArchiveOf(fs, root, b)
    ensures a == b
  {
    EnumerationUnique(PathsOf(a), PathsOf(b), Below(fs.Keys, root));
    assert |PathsOf(a)| == |a| && |PathsOf(b)| == |b|;
    forall i | 0 <= i < |a|
      ensures a[i] == b[i]
    {
      assert PathOf(a[i]) == PathsOf(a)[i] == PathsOf(b)[i] == PathOf(b[i]);
      assert Represents(fs, root, a[i]) && Represents(fs, root, b[i]);
    }
  }

  // ---------------------------------------------------------------- replayable archives

  /** The parent directory of the i-th entry, if it is below the top level, came earlier. */
  ghost predicate ParentCameFirst(es: seq<Entry>, i: nat)
    requires i < |es|
  {
    |PathOf(es[i])| > 1 ==>
      exists j :: 0 <= j < i && es[j].h.flag.TypeDir? && PathOf(es[j]) == Parent(PathOf(es[i]))
  }

  ghost predicate GoodEntry(e: Entry)
  {
    && PathOf(e) != [] && AllNames(PathOf(e))
    && e.h.name == EntryName(PathOf(e), e.h.flag.TypeDir?)
    && !e.h.flag.TypeOther?
    && Complete(e)
    && (e.h.flag.TypeSymlink? ==> e.h.linkname != "")
  }

  /** Names in walk order, parents before children, bodies complete. */
  ghost predicate Replayable(es: seq<Entry>)
  {
    && Sorted(PathsOf(es))
    && (forall i :: 0 <= i < |es| ==> GoodEntry(es[i]))
    && (forall i :: 0 <= i < |es| ==> ParentCameFirst(es, i))
  }

  lemma {:induction false} ReplayablePrefix(es: seq<Entry>, k: nat)
    requires Replayable(es) && k <= |es|
    ensures Replayable(es[..k])
  {
    assert PathsOf(es[..k]) == PathsOf(es)[..k];
    forall i | 0 <= i < k
      ensures ParentCameFirst(es[..k], i)
    {
      assert ParentCameFirst(es, i);
      if |PathOf(es[i])| > 1 {
        var j :| 0 <= j < i && es[j].h.flag.TypeDir? && PathOf(es[j]) == Parent(PathOf(es[i]));
        assert es[..k][j] == es[j];
      }
    }
  }

  /** Ancestor closure: every proper ancestor of an entry has a directory entry before it, and no
      entry for anything but a directory names an ancestor. */
  lemma {:induction false} AncestorsCameFirst(es: seq<Entry>, i: nat, k: nat)
    requires Replayable(es) && i < |es| && 0 < k < |PathOf(es[i])|
    ensures exists j :: 0 <= j < i && PathOf(es[j]) == PathOf(es[i])[..k] && es[j].h.flag.TypeDir?
    ensures forall j :: 0 <= j < |es| && PathOf(es[j]) == PathOf(es[i])[..k] ==> es[j].h.flag.TypeDir?
    decreases i
  {
    assert ParentCameFirst(es, i);
    var p := PathOf(es[i]);
    var j :| 0 <= j < i && es[j].h.flag.TypeDir? && PathOf(es[j]) == Parent(p);
    if k == |p| - 1 {
      forall m | 0 <= m < |es| && PathOf(es[m]) == p[..k]
        ensures es[m].h.flag.TypeDir?
      {
        assert PathsOf(es)[m] == PathsOf(es)[j];
        SortedDistinct(PathsOf(es), m, j);
      }
    } else {
      AncestorsCameFirst(es, j, k);
      assert Parent(p)[..k] == p[..k];
    }
  }

  /** Every archive of a tree is replayable. */
  lemma {:induction false} ArchiveIsReplayable(fs: Nodes, root: Path, es: seq<Entry>)
    requires Tree(fs) && ArchiveOf(fs, root, es)
    ensures Replayable(es)
  {
    forall i | 0 <= i < |es|
      ensures GoodEntry(es[i])
    {
      assert Represents(fs, root, es[i]);
      RepresentedIsGood(fs, root, es[i]);
    }
    forall i | 0 <= i < |es|
      ensures ParentCameFirst(es, i)
    {
      var p := PathOf(es[i]);
      assert Represents(fs, root, es[i]);
      if |p| > 1 {
        var up := Parent(p);
        assert root + up == Parent(root + p);
        BelowMember(fs.Keys, root, up);
        var ps := PathsOf(es);
        assert up in ps;
        var j :| 0 <= j < |ps| && ps[j] == up;
        PrefixBefore(up, p);
        SortedDistinct(ps, j, i);
        assert Represents(fs, root, es[j]);
      }
    }
  }

  lemma {:induction false} RepresentedIsGood(fs: Nodes, root: Path, e: Entry)
    requires Tree(fs) && Represents(fs, root, e)
    ensures GoodEntry(e)
  {
    var p := PathOf(e);
    EntryPath(fs, root, p);
    LocationsAreNames(fs, root + p);
    NamesApart(root, p);
    if fs[root + p].Link? {
      WalkEnds(fs, [], root + p, 0, EVAL_LINKS);
      var target := EvalSymlinks(fs, root + p).value;
      LocationsAreNames(fs, target);
      JoinRel(root, target);
    }
  }
}
