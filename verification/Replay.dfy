/** What extraction does to a file system, entry by entry, and the law of a whole replay: the
    result is the destination overlaid with the archive. */
module Replaying {
  import opened Options
  import opened Text
  import opened Filepath
  import opened Disk
  import opened Tar
  import opened Order
  import opened Archive

  /** `NoStream` is what gzip's reader says about an input without a single byte. */
  datatype ExtractError = Canceled | NoStream | Failed(errno: Errno) | UnexpectedEof | NotSupported

  datatype Replayed = Replayed(fs: Nodes, err: Option<ExtractError>)

  function Failure(err: Option<Errno>): Option<ExtractError>
  {
    match err
    case None => None
    case Some(errno) => Some(Failed(errno))
  }

  /** The path an entry is replayed at. */
  function Target(dir: Path, name: string): Path
  {
    Components(JoinPaths(Absolute(dir), Clean(name)))
  }

  /** The places two archive names are replayed at lie strictly below the destination, and are
      different for different paths. */
  lemma {:induction false} TargetsAreSeparate(dir: Path, p: Path, q: Path, isDirP: bool, isDirQ: bool)
    requires AllNames(dir) && AllNames(p) && AllNames(q) && p != [] && q != []
    ensures var a, b := Target(dir, EntryName(p, isDirP)), Target(dir, EntryName(q, isDirQ));
            dir < a && dir < b && (a == b <==> p == q)
  {
    ReplayedName([], dir, p, isDirP);
    ReplayedName([], dir, q, isDirQ);
    assert (dir + p)[|dir|..] == p && (dir + q)[|dir|..] == q;
  }

  /** Any name in a stream, clean or not: it is replayed where its components lead from the destination,
      which they may climb out of, unless the name starts with a slash; then ".." stops at the
      destination. */
  lemma {:induction false} TargetIsLexical(dir: Path, name: string)
    requires AllNames(dir)
    ensures Target(dir, name) ==
            if Rooted(name) then dir + Squash(true, [], Split(name, '/')) else Squash(true, dir, Split(name, '/'))
  {
    var parts := Split(name, '/');
    var cleaned := Components(name);
    CleanedComponents(dir, name);
    JoinComponents(dir, Clean(name));
    SquashKeepsNames(dir, Split(Clean(name), '/'));
    ComponentsOfAbsolute(Squash(true, dir, Split(Clean(name), '/')));
    if Rooted(name) {
      SquashKeepsNames([], parts);
      SquashNames(true, dir, cleaned);
    } else {
      SquashTwice(dir, [], parts);
    }
  }

  /** Splitting a cleaned name gives its components, up to what does not lead anywhere. */
  lemma {:induction false} CleanedComponents(dir: Path, name: string)
    requires AllNames(dir)
    ensures Squash(true, dir, Split(Clean(name), '/')) == Squash(true, dir, Components(name))
  {
    var cs := Components(name);
    ComponentsHoldNoSlash(Rooted(name), [], Split(name, '/'));
    if Rooted(name) {
      var s := Join(cs, '/');
      assert Clean(name) == "" + ['/'] + s;
      SplitAtSeparator("", s, '/');
      SquashAppend(true, dir, [""], Split(s, '/'));
      SquashOne(dir, "");
      if cs == [] { SquashOne(dir, ""); } else { SplitJoin(cs, '/'); }
    } else if cs == [] {
      SplitWithoutSeparator(".", '/');
      SquashOne(dir, ".");
    } else {
      SplitJoin(cs, '/');
    }
  }

  lemma {:induction false} ComponentsHoldNoSlash(rooted: bool, acc: seq<string>, todo: seq<string>)
    requires forall i :: 0 <= i < |acc| ==> '/' !in acc[i]
    requires forall i :: 0 <= i < |todo| ==> '/' !in todo[i]
    ensures forall i :: 0 <= i < |Squash(rooted, acc, todo)| ==> '/' !in Squash(rooted, acc, todo)[i]
    decreases |todo|
  {
    if todo != [] {
      var c, rest := todo[0], todo[1..];
      if c == "" || c == "." {
        ComponentsHoldNoSlash(rooted, acc, rest);
      } else if c != ".." {
        ComponentsHoldNoSlash(rooted, acc + [c], rest);
      } else if acc != [] && Last(acc) != ".." {
        ComponentsHoldNoSlash(rooted, Parent(acc), rest);
      } else if rooted {
        ComponentsHoldNoSlash(rooted, acc, rest);
      } else {
        ComponentsHoldNoSlash(rooted, acc + [".."], rest);
      }
    }
  }

  /** In particular, k times ".." and then names: k levels above the destination, and down. */
  lemma {:induction false} TargetAbove(dir: Path, k: nat, t: Path)
    requires AllNames(dir) && AllNames(t) && k <= |dir| && Ups(k) + t != []
    ensures Target(dir, Join(Ups(k) + t, '/')) == dir[..|dir| - k] + t
  {
    var parts := Ups(k) + t;
    forall i | 0 <= i < |parts|
      ensures '/' !in parts[i] && parts[i] != ""
    {
      if i >= k { assert IsName(t[i - k]); }
    }
    SplitJoin(parts, '/');
    assert parts[0][0] in parts[0];
    TargetIsLexical(dir, Join(parts, '/'));
    SquashAppend(true, dir, Ups(k), t);
    SquashUps(dir, k);
    SquashNames(true, dir[..|dir| - k], t);
  }

  function MakeDirectory(fs: Nodes, target: Path, mode: Mode): Replayed
  {
    var c := MkdirAll(fs, target, mode);
    Replayed(c.fs, Failure(c.err))
  }

  function MakeFile(fs: Nodes, target: Path, mode: Mode, body: seq<Byte>, size: nat): Replayed
  {
    var o := OpenFile(fs, target, mode);
    if o.err.Some? then Replayed(o.fs, Failure(o.err))
    else Replayed(WriteOver(o.fs, o.loc, body), if |body| < size then Some(UnexpectedEof) else None)
  }

  function MakeLink(fs: Nodes, target: Path, text: string): Replayed
  {
    var c := Symlink(fs, text, target);
    Replayed(c.fs, Failure(c.err))
  }

  /** The switch on the type of an entry. */
  function StepAt(fs: Nodes, target: Path, umask: Mode, e: Entry): Replayed
  {
    var mode := Masked(e.h.mode, umask);
    match e.h.flag
    case TypeDir => MakeDirectory(fs, target, mode)
    case TypeReg => MakeFile(fs, target, mode, e.body, e.h.size)
    case TypeSymlink => MakeLink(fs, target, e.h.linkname)
    case TypeOther => Replayed(fs, Some(NotSupported))
  }

  /** One turn of the extraction loop. */
  function Step(fs: Nodes, dir: Path, umask: Mode, e: Entry): Replayed
  {
    StepAt(fs, Target(dir, e.h.name), umask, e)
  }

  /** All turns, up to the first error. */
  function Replay(fs: Nodes, dir: Path, umask: Mode, es: seq<Entry>): Replayed
  {
    if es == [] then Replayed(fs, None)
    else
      var r := Replay(fs, dir, umask, es[..|es| - 1]);
      if r.err.Some? then r else Step(r.fs, dir, umask, es[|es| - 1])
  }

  /** An error ends the replay. */
  lemma {:induction false} ErrorSticks(fs: Nodes, dir: Path, umask: Mode, es: seq<Entry>, k: nat)
    requires k <= |es| && Replay(fs, dir, umask, es[..k]).err.Some?
    ensures Replay(fs, dir, umask, es) == Replay(fs, dir, umask, es[..k])
  {
    if k < |es| {
      assert es[..|es| - 1][..k] == es[..k];
      ErrorSticks(fs, dir, umask, es[..|es| - 1], k);
    } else {
      assert es[..k] == es;
    }
  }

  /** What no replay accepts: entries that are neither directory, file nor link, bodies shorter than
      announced, and links without a text. */
  predicate Acceptable(e: Entry)
  {
    && !e.h.flag.TypeOther?
    && (e.h.flag.TypeReg? ==> |e.body| >= e.h.size)
    && (e.h.flag.TypeSymlink? ==> e.h.linkname != "")
  }

  lemma {:induction false} StepNeedsAcceptable(fs: Nodes, dir: Path, umask: Mode, e: Entry)
    ensures var r := Step(fs, dir, umask, e);
            && (r.err.None? ==> Acceptable(e))
            && (!Acceptable(e) && !e.h.flag.TypeReg? ==> r.fs == fs)
  {
  }

  lemma {:induction false} LastIsAcceptable(fs: Nodes, dir: Path, umask: Mode, es: seq<Entry>)
    requires es != [] && Replay(fs, dir, umask, es).err.None?
    ensures Acceptable(es[|es| - 1]) && Replay(fs, dir, umask, es[..|es| - 1]).err.None?
  {
    StepNeedsAcceptable(Replay(fs, dir, umask, es[..|es| - 1]).fs, dir, umask, es[|es| - 1]);
  }

  /** Whatever the stream and the destination: a replay without an error has seen nothing else. */
  lemma {:induction false} NothingIsSkipped(fs: Nodes, dir: Path, umask: Mode, es: seq<Entry>, i: nat)
    requires Replay(fs, dir, umask, es).err.None? && i < |es|
    ensures Acceptable(es[i])
    decreases |es|
  {
    var k := |es| - 1;
    LastIsAcceptable(fs, dir, umask, es);
    if i == k {
      assert es[i] == es[k];
    } else {
      assert es[..k][i] == es[i];
      NothingIsSkipped(fs, dir, umask, es[..k], i);
    }
  }

  /** An entry that is neither directory, file nor link ends the replay and touches nothing. */
  lemma {:induction false} OtherEndsReplay(fs: Nodes, dir: Path, umask: Mode, es: seq<Entry>, k: nat)
    requires k < |es| && es[k].h.flag.TypeOther? && Replay(fs, dir, umask, es[..k]).err.None?
    ensures Replay(fs, dir, umask, es) == Replayed(Replay(fs, dir, umask, es[..k]).fs, Some(NotSupported))
  {
    var part := es[..k + 1];
    assert part[..k] == es[..k] && part[k] == es[k];
    ErrorSticks(fs, dir, umask, es, k + 1);
  }

  // ---------------------------------------------------------------- one step

  /** What an entry makes of its place. */
  function Landed(fs: Nodes, loc: Path, umask: Mode, e: Entry): Node
  {
    match e.h.flag
    case TypeDir => if IsDirectory(fs, loc) then fs[loc] else Dir(Masked(e.h.mode, umask))
    case TypeReg =>
      if loc in fs && fs[loc].File? then File(fs[loc].mode, Overwrite(fs[loc].bytes, e.body))
      else File(Masked(e.h.mode, umask), e.body)
    case _ => Link(e.h.linkname)
  }

  /** The place is free, or holds what the entry can be merged with. */
  predicate Fits(fs: Nodes, loc: Path, e: Entry)
  {
    match e.h.flag
    case TypeDir => loc in fs ==> fs[loc].Dir?
    case TypeReg => loc in fs ==> fs[loc].File?
    case _ => loc !in fs
  }

  /** The error for an entry that does not fit its place. */
  function Misfit(e: Entry): Errno
  {
    match e.h.flag
    case TypeDir => ENOTDIR
    case TypeReg => EISDIR
    case _ => EEXIST
  }

  /** No link and no device where a directory or a file is to be replayed. */
  predicate Unobstructed(fs: Nodes, loc: Path, e: Entry)
  {
    !e.h.flag.TypeSymlink? && loc in fs ==> fs[loc].Dir? || fs[loc].File?
  }

  /** `dir` leads, possibly through links, to the directory `top`. */
  predicate LeadsTo(fs: Nodes, dir: Path, top: Path)
  {
    var w := Resolve(fs, dir);
    AllNames(dir) && w.Found? && w.loc == top && IsDirectory(fs, top)
  }

  /** Directories all the way from `top` down to the parent of `p`. */
  predicate ParentsReady(fs: Nodes, top: Path, p: Path)
  {
    forall i :: 0 <= i < |p| ==> IsDirectory(fs, top + p[..i])
  }

  /** Below a destination, resolution follows names literally. */
  lemma {:induction false} ResolveBelow(fs: Nodes, dir: Path, top: Path, p: Path)
    requires LeadsTo(fs, dir, top) && AllNames(p) && p != [] && ParentsReady(fs, top, p)
    ensures top + p !in fs ==> Resolve(fs, dir + p) == Absent(top + p)
    ensures top + p in fs && !fs[top + p].Link? ==>
              Resolve(fs, dir + p).Found? && Resolve(fs, dir + p).loc == top + p
    ensures Slot(fs, dir + p) == Some(top + p)
    ensures Resolve(fs, Parent(dir + p)).Found? && IsDirectory(fs, Resolve(fs, Parent(dir + p)).loc)
  {
    var w := Resolve(fs, dir);
    WalkContinues(fs, [], dir, p, 0, KERNEL_LINKS);
    WalkDown(fs, top, p, w.links, KERNEL_LINKS);
    var up := Parent(p);
    assert Parent(dir + p) == dir + up;
    assert IsDirectory(fs, top + up);
    WalkContinues(fs, [], dir, up, 0, KERNEL_LINKS);
    if up != [] {
      forall i | 0 < i < |up|
        ensures IsDirectory(fs, top + up[..i])
      {
        assert up[..i] == p[..i];
      }
      WalkDown(fs, top, up, w.links, KERNEL_LINKS);
    } else {
      assert top + up == top;
    }
    assert top + up + [Last(p)] == top + p;
    assert Last(dir + p) == Last(p);
  }

  /** The effect of one entry on the place its target resolves to. */
  lemma {:induction false} StepAtExact(fs: Nodes, target: Path, loc: Path, umask: Mode, e: Entry)
    requires target != [] && Slot(fs, target) == Some(loc) && Complete(e) && !e.h.flag.TypeOther?
    requires e.h.flag.TypeSymlink? ==> e.h.linkname != ""
    requires loc !in fs ==> Resolve(fs, target) == Absent(loc)
    requires loc in fs && !fs[loc].Link? ==> Resolve(fs, target).Found? && Resolve(fs, target).loc == loc
    requires Resolve(fs, Parent(target)).Found? && IsDirectory(fs, Resolve(fs, Parent(target)).loc)
    requires Unobstructed(fs, loc, e)
    ensures var r := StepAt(fs, target, umask, e);
            && r.err == (if Fits(fs, loc, e) then None else Some(Failed(Misfit(e))))
            && r.fs == if Fits(fs, loc, e) then fs[loc := Landed(fs, loc, umask, e)] else fs
  {
    var mode := Masked(e.h.mode, umask);
    match e.h.flag
    case TypeDir =>
      if loc !in fs {
        assert MkdirAll(fs, Parent(target), mode) == Change(fs, None);
        assert Mkdir(fs, target, mode) == Change(fs[loc := Dir(mode)], None);
      } else if fs[loc].Dir? {
        assert fs[loc := fs[loc]] == fs;
      }
    case TypeReg =>
      assert Overwrite([], e.body) == e.body;
    case TypeSymlink =>
  }

  /** The exact effect of one entry: it lands at its place and touches nothing else, or it fails
      and touches nothing at all. */
  lemma {:induction false} StepExact(fs: Nodes, dir: Path, top: Path, umask: Mode, e: Entry)
    requires LeadsTo(fs, dir, top) && GoodEntry(e) && ParentsReady(fs, top, PathOf(e))
    requires Unobstructed(fs, top + PathOf(e), e)
    ensures var loc, r := top + PathOf(e), Step(fs, dir, umask, e);
            && r.err == (if Fits(fs, loc, e) then None else Some(Failed(Misfit(e))))
            && r.fs == if Fits(fs, loc, e) then fs[loc := Landed(fs, loc, umask, e)] else fs
  {
    var p := PathOf(e);
    ReplayedName([], dir, p, e.h.flag.TypeDir?);
    ResolveBelow(fs, dir, top, p);
    StepAtExact(fs, dir + p, top + p, umask, e);
  }

  /** Where the link at an entry's place leads, for an extraction. */
  lemma {:induction false} LinkAtPlace(fs: Nodes, dir: Path, top: Path, p: Path)
    requires LeadsTo(fs, dir, top) && AllNames(p) && p != [] && ParentsReady(fs, top, p)
    requires top + p in fs && fs[top + p].Link?
    ensures var text, links := fs[top + p].text, Resolve(fs, dir).links;
            Resolve(fs, dir + p) ==
              if links >= KERNEL_LINKS then Stuck(ELOOP)
              else Walk(fs, if Rooted(text) then [] else top + Parent(p), Split(text, '/'), links + 1, KERNEL_LINKS)
  {
    var up, links := Parent(p), Resolve(fs, dir).links;
    WalkContinues(fs, [], dir, p, 0, KERNEL_LINKS);
    assert p == up + [Last(p)] && IsName(Last(p)) && top + up + [Last(p)] == top + p;
    if up == [] {
      assert top + up == top && p == [Last(p)];
    } else {
      forall i | 0 < i < |up|
        ensures IsDirectory(fs, top + up[..i])
      {
        assert up[..i] == p[..i];
      }
      assert IsDirectory(fs, top + up) by { assert p[..|up|] == up; }
      WalkDown(fs, top, up, links, KERNEL_LINKS);
      WalkContinues(fs, top, up, [Last(p)], links, KERNEL_LINKS);
    }
    assert Split(fs[top + p].text, '/') + [] == Split(fs[top + p].text, '/');
  }

  /** What an entry does to the object that its target resolves to. */
  function Through(fs: Nodes, at: Walked, umask: Mode, e: Entry): Replayed
  {
    match at
    case Found(loc, _) =>
      if loc !in fs then Replayed(fs, Some(Failed(ENOENT)))
      else if e.h.flag.TypeDir? then Replayed(fs, if fs[loc].Dir? then None else Some(Failed(ENOTDIR)))
      else (match fs[loc]
            case File(mode, bytes) => Replayed(fs[loc := File(mode, Overwrite(bytes, e.body))], None)
            case Other(opens) => Replayed(fs, if opens then None else Some(Failed(ENXIO)))
            case _ => Replayed(fs, Some(Failed(EISDIR))))
    case Absent(loc) =>
      if e.h.flag.TypeDir? then Replayed(fs, Some(Failed(EEXIST)))
      else Replayed(fs[loc := File(Masked(e.h.mode, umask), e.body)], None)
    case Stuck(why) => Replayed(fs, Some(Failed(if e.h.flag.TypeDir? then EEXIST else why)))
  }

  /** A directory or file entry at a link takes effect where the link leads, inside the destination or
      not: an existing file is overwritten there, a missing one created there, a directory accepted.
      A link entry is refused. The link itself stays. */
  lemma {:induction false} ThroughLink(fs: Nodes, dir: Path, top: Path, umask: Mode, e: Entry)
    requires Tree(fs) && LeadsTo(fs, dir, top) && GoodEntry(e) && ParentsReady(fs, top, PathOf(e))
    requires top + PathOf(e) in fs && fs[top + PathOf(e)].Link?
    ensures var loc, r := top + PathOf(e), Step(fs, dir, umask, e);
            && r == (if e.h.flag.TypeSymlink? then Replayed(fs, Some(Failed(EEXIST)))
                     else Through(fs, Resolve(fs, dir + PathOf(e)), umask, e))
            && loc in r.fs && r.fs[loc] == fs[loc]
  {
    var p := PathOf(e);
    ReplayedName([], dir, p, e.h.flag.TypeDir?);
    ResolveBelow(fs, dir, top, p);
    assert AllNames(dir + p);
    WalkEnds(fs, [], dir + p, 0, KERNEL_LINKS);
    LinkStays(fs, top + p, Resolve(fs, dir + p), umask, e);
    match e.h.flag
    case TypeDir => DirectoryThroughLink(fs, dir + p, top + p, umask, e);
    case TypeReg => FileThroughLink(fs, dir + p, umask, e);
    case TypeSymlink => LinkOverLink(fs, dir + p, top + p, umask, e);
  }

  lemma {:induction false} LinkStays(fs: Nodes, link: Path, at: Walked, umask: Mode, e: Entry)
    requires link in fs && fs[link].Link?
    requires at.Found? ==> at.loc in fs && !fs[at.loc].Link?
    requires at.Absent? ==> at.loc !in fs
    ensures var r := Through(fs, at, umask, e); link in r.fs && r.fs[link] == fs[link]
  {
  }

  lemma {:induction false} LinkOverLink(fs: Nodes, target: Path, loc: Path, umask: Mode, e: Entry)
    requires target != [] && Slot(fs, target) == Some(loc) && loc in fs
    requires e.h.flag.TypeSymlink? && e.h.linkname != ""
    ensures StepAt(fs, target, umask, e) == Replayed(fs, Some(Failed(EEXIST)))
  {
  }

  lemma {:induction false} DirectoryThroughLink(fs: Nodes, target: Path, loc: Path, umask: Mode, e: Entry)
    requires target != [] && Slot(fs, target) == Some(loc) && loc in fs && fs[loc].Link? && e.h.flag.TypeDir?
    requires Resolve(fs, target).Found? ==> Resolve(fs, target).loc in fs
    requires Resolve(fs, Parent(target)).Found? && IsDirectory(fs, Resolve(fs, Parent(target)).loc)
    ensures StepAt(fs, target, umask, e) == Through(fs, Resolve(fs, target), umask, e)
  {
    var mode := Masked(e.h.mode, umask);
    assert MkdirAll(fs, Parent(target), mode) == Change(fs, None);
    assert Mkdir(fs, target, mode) == Change(fs, Some(EEXIST));
  }

  lemma {:induction false} FileThroughLink(fs: Nodes, target: Path, umask: Mode, e: Entry)
    requires e.h.flag.TypeReg? && Complete(e)
    requires var at := Resolve(fs, target); at.Found? ==> at.loc in fs && !fs[at.loc].Link?
    ensures StepAt(fs, target, umask, e) == Through(fs, Resolve(fs, target), umask, e)
  {
    assert Overwrite([], e.body) == e.body;
  }

  // ---------------------------------------------------------------- whole replays

  /** The places the entries are replayed at. */
  ghost function Targets(top: Path, es: seq<Entry>): set<Path>
  {
    set i | 0 <= i < |es| :: top + PathOf(es[i])
  }

  /** `after` is `before` with every entry landed at its place and all else as it was. */
  ghost predicate Overlaid(before: Nodes, after: Nodes, top: Path, umask: Mode, es: seq<Entry>)
  {
    && after.Keys == before.Keys + Targets(top, es)
    && (forall i :: 0 <= i < |es| ==>
          var loc := top + PathOf(es[i]); after[loc] == Landed(before, loc, umask, es[i]))
    && (forall q :: q in before && q !in Targets(top, es) ==> after[q] == before[q])
  }

  ghost predicate AllFit(fs: Nodes, top: Path, es: seq<Entry>)
  {
    forall i :: 0 <= i < |es| ==> Fits(fs, top + PathOf(es[i]), es[i])
  }

  ghost predicate NothingObstructs(fs: Nodes, top: Path, es: seq<Entry>)
  {
    forall i :: 0 <= i < |es| ==> Unobstructed(fs, top + PathOf(es[i]), es[i])
  }

  /** While every entry fits, the destination only grows and still leads to the same place. */
  lemma {:induction false} OverlayGrows(before: Nodes, after: Nodes, dir: Path, top: Path, umask: Mode, es: seq<Entry>)
    requires Overlaid(before, after, top, umask, es) && AllFit(before, top, es)
    requires LeadsTo(before, dir, top)
    ensures Grows(before, after) && LeadsTo(after, dir, top)
  {
    forall q | q in before
      ensures q in after && SameKind(before[q], after[q])
    {
      if q in Targets(top, es) {
        var i :| 0 <= i < |es| && q == top + PathOf(es[i]);
        assert Fits(before, top + PathOf(es[i]), es[i]);
      }
    }
    WalkGrows(before, after, [], dir, 0, KERNEL_LINKS);
  }

  lemma {:induction false} TargetsOfPrefix(top: Path, es: seq<Entry>)
    requires es != []
    ensures Targets(top, es) == Targets(top, es[..|es| - 1]) + {top + PathOf(es[|es| - 1])}
  {
    var k := |es| - 1;
    var done := es[..k];
    forall q | q in Targets(top, es)
      ensures q in Targets(top, done) + {top + PathOf(es[k])}
    {
      var i :| 0 <= i < |es| && q == top + PathOf(es[i]);
      if i < k { assert done[i] == es[i]; }
    }
    forall q | q in Targets(top, done)
      ensures q in Targets(top, es)
    {
      var i :| 0 <= i < k && q == top + PathOf(done[i]);
      assert done[i] == es[i];
    }
  }

  /** No earlier entry lands where the last one does. */
  lemma {:induction false} LastPlaceIsNew(top: Path, es: seq<Entry>)
    requires es != [] && Sorted(PathsOf(es))
    ensures top + PathOf(es[|es| - 1]) !in Targets(top, es[..|es| - 1])
  {
    var k := |es| - 1;
    forall i | 0 <= i < k
      ensures top + PathOf(es[..k][i]) != top + PathOf(es[k])
    {
      assert es[..k][i] == es[i];
      if top + PathOf(es[i]) == top + PathOf(es[k]) {
        assert PathOf(es[i]) == (top + PathOf(es[i]))[|top|..] == PathOf(es[k]);
      }
      SortedDistinct(PathsOf(es), i, k);
    }
  }

  /** Where a directory entry has landed, there is a directory. */
  lemma {:induction false} DirectoryLanded(before: Nodes, after: Nodes, top: Path, umask: Mode, es: seq<Entry>, j: nat)
    requires Overlaid(before, after, top, umask, es) && AllFit(before, top, es)
    requires j < |es| && es[j].h.flag.TypeDir?
    ensures IsDirectory(after, top + PathOf(es[j]))
  {
    var loc := top + PathOf(es[j]);
    assert Fits(before, loc, es[j]) && loc in Targets(top, es);
    assert after[loc] == Landed(before, loc, umask, es[j]);
  }

  /** After the entries before it, the parents of the last entry are in place. */
  lemma {:induction false} ParentsAreReady(before: Nodes, mid: Nodes, top: Path, umask: Mode, es: seq<Entry>)
    requires es != [] && Replayable(es) && IsDirectory(mid, top)
    requires Overlaid(before, mid, top, umask, es[..|es| - 1]) && AllFit(before, top, es[..|es| - 1])
    ensures ParentsReady(mid, top, PathOf(es[|es| - 1]))
  {
    var k := |es| - 1;
    var done, p := es[..k], PathOf(es[k]);
    forall i | 0 <= i < |p|
      ensures IsDirectory(mid, top + p[..i])
    {
      if i == 0 {
        assert top + p[..0] == top;
      } else {
        AncestorsCameFirst(es, k, i);
        var j :| 0 <= j < k && PathOf(es[j]) == p[..i] && es[j].h.flag.TypeDir?;
        assert done[j] == es[j];
        DirectoryLanded(before, mid, top, umask, done, j);
      }
    }
  }

  /** Landing one more entry at a new place extends the overlay. */
  lemma {:induction false} OverlayExtends(before: Nodes, mid: Nodes, top: Path, umask: Mode, es: seq<Entry>)
    requires es != [] && Sorted(PathsOf(es))
    requires Overlaid(before, mid, top, umask, es[..|es| - 1])
    ensures var e := es[|es| - 1];
            var loc := top + PathOf(e);
            Overlaid(before, mid[loc := Landed(before, loc, umask, e)], top, umask, es)
  {
    var k := |es| - 1;
    var done, e := es[..k], es[k];
    var loc := top + PathOf(e);
    var after := mid[loc := Landed(before, loc, umask, e)];
    LastPlaceIsNew(top, es);
    TargetsOfPrefix(top, es);
    forall i | 0 <= i < |es|
      ensures after[top + PathOf(es[i])] == Landed(before, top + PathOf(es[i]), umask, es[i])
    {
      if i < k {
        assert done[i] == es[i];
        assert top + PathOf(done[i]) in Targets(top, done);
      }
    }
  }

  /** One more entry of an overlaid archive. */
  lemma {:induction false} OverlayStep(before: Nodes, mid: Nodes, dir: Path, top: Path, umask: Mode, es: seq<Entry>)
    requires es != [] && Replayable(es) && LeadsTo(before, dir, top)
    requires Overlaid(before, mid, top, umask, es[..|es| - 1]) && AllFit(before, top, es[..|es| - 1])
    requires NothingObstructs(before, top, es)
    ensures var k := |es| - 1;
            var loc, r := top + PathOf(es[k]), Step(mid, dir, umask, es[k]);
            && (r.err.None? <==> Fits(before, loc, es[k]))
            && (r.err.Some? ==> r.fs == mid)
            && (r.err.None? ==> Overlaid(before, r.fs, top, umask, es))
  {
    var k := |es| - 1;
    var e := es[k];
    var loc := top + PathOf(e);
    OverlayGrows(before, mid, dir, top, umask, es[..k]);
    LastPlaceIsNew(top, es);
    ParentsAreReady(before, mid, top, umask, es);
    assert loc in mid <==> loc in before;
    assert loc in before ==> mid[loc] == before[loc];
    assert GoodEntry(e) && Unobstructed(before, loc, e);
    StepExact(mid, dir, top, umask, e);
    OverlayExtends(before, mid, top, umask, es);
  }

  lemma {:induction false} AllFitPrefix(fs: Nodes, top: Path, es: seq<Entry>)
    requires es != []
    ensures var k := |es| - 1;
            && (AllFit(fs, top, es) <==> AllFit(fs, top, es[..k]) && Fits(fs, top + PathOf(es[k]), es[k]))
            && (NothingObstructs(fs, top, es) ==> NothingObstructs(fs, top, es[..k]))
  {
    var k := |es| - 1;
    assert forall i :: 0 <= i < k ==> es[..k][i] == es[i];
  }

  /** The overlay law. Where no link or device obstructs, replaying an archive succeeds exactly
      when every entry fits, and the result is then the overlaid destination. */
  lemma {:induction false} OverlayLaw(before: Nodes, dir: Path, top: Path, umask: Mode, es: seq<Entry>)
    requires Replayable(es) && LeadsTo(before, dir, top) && NothingObstructs(before, top, es)
    ensures var r := Replay(before, dir, umask, es);
            && (r.err.None? <==> AllFit(before, top, es))
            && (r.err.None? ==> Overlaid(before, r.fs, top, umask, es))
  {
    if es == [] {
      assert Targets(top, es) == {};
    } else {
      var k := |es| - 1;
      var done := es[..k];
      ReplayablePrefix(es, k);
      AllFitPrefix(before, top, es);
      OverlayLaw(before, dir, top, umask, done);
      var r := Replay(before, dir, umask, done);
      if r.err.None? {
        OverlayStep(before, r.fs, dir, top, umask, es);
      }
    }
  }

  /** A failed replay stops at the first entry that does not fit and leaves the entries before it
      overlaid. */
  lemma {:induction false} FailedReplay(before: Nodes, dir: Path, top: Path, umask: Mode, es: seq<Entry>)
    returns (k: nat)
    requires Replayable(es) && LeadsTo(before, dir, top) && NothingObstructs(before, top, es)
    requires Replay(before, dir, umask, es).err.Some?
    ensures k < |es| && AllFit(before, top, es[..k]) && !Fits(before, top + PathOf(es[k]), es[k])
    ensures Overlaid(before, Replay(before, dir, umask, es).fs, top, umask, es[..k])
  {
    var n := |es| - 1;
    var done := es[..n];
    ReplayablePrefix(es, n);
    assert NothingObstructs(before, top, done) by { AllFitPrefix(before, top, es); }
    if Replay(before, dir, umask, done).err.Some? {
      ErrorSticks(before, dir, umask, es, n);
      k := FailedReplay(before, dir, top, umask, done);
      assert done[..k] == es[..k];
    } else {
      FailedAtLast(before, dir, top, umask, es);
      k := n;
    }
  }

  lemma {:induction false} FailedAtLast(before: Nodes, dir: Path, top: Path, umask: Mode, es: seq<Entry>)
    requires es != [] && Replayable(es) && LeadsTo(before, dir, top) && NothingObstructs(before, top, es)
    requires Replayable(es[..|es| - 1]) && NothingObstructs(before, top, es[..|es| - 1])
    requires Replay(before, dir, umask, es[..|es| - 1]).err.None? && Replay(before, dir, umask, es).err.Some?
    ensures var n := |es| - 1;
            && AllFit(before, top, es[..n]) && !Fits(before, top + PathOf(es[n]), es[n])
            && Overlaid(before, Replay(before, dir, umask, es).fs, top, umask, es[..n])
  {
    var done := es[..|es| - 1];
    OverlayLaw(before, dir, top, umask, done);
    OverlayStep(before, Replay(before, dir, umask, done).fs, dir, top, umask, es);
  }
}
