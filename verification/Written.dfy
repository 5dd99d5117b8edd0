/** What a run of the archiver has written, at every point of the walk: which paths, in which
    order, described how, and why it stopped. */
module Written {
  import opened Options
  import opened Text
  import opened Filepath
  import opened Disk
  import opened Tar
  import opened Order
  import opened Archive
  import opened WalkOrder
  import opened Chains
  import opened Source

  datatype CompressError =
    | Canceled | NoRoot | BadLink | Unsupported | CannotOpen | FileShrank

  /** The entry describes the object at its path; the body of a regular file was copied while the
      file may have been changing. */
  ghost predicate Describes(worlds: seq<Nodes>, root: Path, e: Entry)
    requires worlds != []
  {
    var p := PathOf(e);
    && p != [] && root + p in worlds[0]
    && match worlds[0][root + p]
       case File(mode, _) =>
         && e.h == Header(EntryName(p, false), TypeReg, mode, e.h.size, "")
         && exists t :: CopiedSince(worlds, t, root + p, e.h.size, e.body)
       case Link(_) => EvalSymlinks(worlds[0], root + p).Some? && e == EntryFor(worlds[0], root, p)
       case Dir(_) => e == EntryFor(worlds[0], root, p)
       case Other(_) => false
  }

  ghost predicate AllDescribed(worlds: seq<Nodes>, root: Path, es: seq<Entry>)
    requires worlds != []
  {
    forall i :: 0 <= i < |es| ==> Describes(worlds, root, es[i])
  }

  /** The complete description of an object that nobody changes is its entry, whatever happens to
      other files during the run. */
  lemma {:induction false} UndisturbedEntry(worlds: seq<Nodes>, root: Path, e: Entry)
    requires worlds != [] && Describes(worlds, root, e) && Complete(e)
    requires Undisturbed(worlds, root + PathOf(e))
    ensures e == EntryFor(worlds[0], root, PathOf(e))
  {
    var loc := root + PathOf(e);
    if worlds[0][loc].File? {
      var t :| CopiedSince(worlds, t, loc, e.h.size, e.body);
      UndisturbedCopy(worlds, t, loc, e.h.size, e.body);
    }
  }

  /** What the walk needs of an object: the root is only looked at, all else is archived. */
  predicate Visitable(fs: Nodes, root: Path, p: Path)
    requires root + p in fs
  {
    if p != [] then Archivable(fs, root + p)
    else if fs[root + p].Link? then EvalSymlinks(fs, root + p).Some?
    else !fs[root + p].Other?
  }

  /** Why a walk may stop at a path. */
  ghost predicate Reason(worlds: seq<Nodes>, root: Path, stop: Path, err: CompressError)
    requires worlds != [] && root + stop in worlds[0]
  {
    match err
    case Canceled => true
    case FileShrank => stop != [] && worlds[0][root + stop].File? && exists t :: HasShrunk(worlds, root + stop, t)
    case BadLink => worlds[0][root + stop].Link? && EvalSymlinks(worlds[0], root + stop).None?
    case Unsupported => worlds[0][root + stop].Other?
    case CannotOpen =>
      && stop != [] && worlds[0][root + stop].Link?
      && EvalSymlinks(worlds[0], root + stop).Some? && OpenTarget(worlds[0], root + stop).None?
    case _ => false
  }

  /** The header announces the object at the path, with the size it had in state `t`. */
  ghost predicate HeaderFits(worlds: seq<Nodes>, t: nat, root: Path, p: Path, h: Header)
    requires worlds != [] && root + p in worlds[0]
  {
    match worlds[0][root + p]
    case File(mode, _) =>
      t < |worlds| && h == Header(EntryName(p, false), TypeReg, mode, |BytesAt(worlds[t], root + p)|, "")
    case Other(_) => false
    case Link(_) => EvalSymlinks(worlds[0], root + p).Some? && h == EntryFor(worlds[0], root, p).h
    case Dir(_) => h == EntryFor(worlds[0], root, p).h
  }

  /** An existing target always has a text relative to the root. */
  lemma {:induction false} LinkHasText(fs: Nodes, root: Path, p: Path)
    requires Tree(fs) && root + p in fs && EvalSymlinks(fs, root + p).Some?
    ensures LinkText(fs, root, p).Some?
  {
    LocationsAreNames(fs, root + p);
    NamesApart(root, p);
    WalkEnds(fs, [], root + p, 0, EVAL_LINKS);
    LocationsAreNames(fs, EvalSymlinks(fs, root + p).value);
    JoinRel(root, EvalSymlinks(fs, root + p).value);
  }

  /** The walk's path relative to the root is "." for the root and the entry name otherwise. */
  lemma {:induction false} RelativeName(fs: Nodes, root: Path, p: Path)
    requires Tree(fs) && root + p in fs
    ensures AllNames(root) && AllNames(p)
    ensures var r := Rel(Absolute(root), Absolute(root + p));
            r.Some? && (r.value == "." <==> p == [])
            && (p != [] ==> forall isDir :: EntryName(p, isDir) == r.value + if isDir then "/" else "")
  {
    LocationsAreNames(fs, root + p);
    NamesApart(root, p);
    RelInside(root, p);
    if p != [] {
      ReplayedName(root, [], p, false);
    }
  }

  /** An entry with a fitting header and a body copied since describes the object. */
  lemma {:induction false} FittingEntry(worlds: seq<Nodes>, t: nat, root: Path, p: Path, e: Entry)
    requires Timeline(worlds) && root + p in worlds[0] && p != []
    requires HeaderFits(worlds, t, root, p, e.h)
    requires if worlds[0][root + p].File? then BodySeen(worlds, t, root + p, e.body) else e.body == []
    ensures PathOf(e) == p && Describes(worlds, root, e)
  {
    RelativeName(worlds[0], root, p);
    ComponentsOfJoined(p, false);
    ComponentsOfJoined(p, true);
    assert Join(p, '/') + "" == Join(p, '/');
    if worlds[0][root + p].File? {
      assert CopiedSince(worlds, t, root + p, e.h.size, e.body);
    }
  }

  lemma {:induction false} HeaderFacts(worlds: seq<Nodes>, t: nat, root: Path, p: Path, h: Header)
    requires worlds != [] && root + p in worlds[0] && HeaderFits(worlds, t, root, p, h)
    ensures h.flag.TypeDir? <==> worlds[0][root + p].Dir?
    ensures Payload(h) == h.size && (!worlds[0][root + p].File? ==> h.size == 0)
  {
  }

  /** The outcome of copying a body, as a reason for the walk to stop at the path. */
  ghost predicate CopyOutcome(worlds: seq<Nodes>, path: Path, size: nat, err: Option<CompressError>)
    requires worlds != [] && path in worlds[0]
  {
    match err
    case None => OpenTarget(worlds[0], path).Some?
    case Some(CannotOpen) => !Archivable(worlds[0], path)
    case Some(FileShrank) => worlds[0][path].File? && ShorterThan(worlds, path, size)
    case _ => false
  }

  lemma {:induction false} WhyEmitFails(worlds: seq<Nodes>, t: nat, root: Path, p: Path, h: Header,
                                        err: Option<CompressError>)
    requires worlds != [] && p != [] && root + p in worlds[0] && HeaderFits(worlds, t, root, p, h)
    requires if h.flag.TypeDir? then err.None? else CopyOutcome(worlds, root + p, h.size, err)
    ensures err.None? ==> Visitable(worlds[0], root, p)
    ensures err.Some? ==> err.value != Canceled && Reason(worlds, root, p, err.value)
  {
    if err == Some(FileShrank) {
      assert HasShrunk(worlds, root + p, t);
    }
  }

  ghost function Under(keys: set<Path>, loc: Path): set<Path>
  {
    set q | q in keys && loc <= q
  }

  lemma UnderChild(keys: set<Path>, loc: Path, n: string)
    requires loc in keys
    ensures Under(keys, loc + [n]) < Under(keys, loc)
  {
    assert loc in Under(keys, loc) && loc !in Under(keys, loc + [n]);
    forall q | q in Under(keys, loc + [n])
      ensures q in Under(keys, loc)
    {
      assert q[..|loc|] == (loc + [n])[..|loc|] == loc;
    }
  }

  ghost predicate AllVisitable(fs: Nodes, root: Path, s: set<Path>)
  {
    forall q :: q in s && root + q in fs ==> Visitable(fs, root, q)
  }

  /** What a walk of the tree at `p` has written: everything when it succeeded, and otherwise
      everything up to the path it stopped at, with or without that path's own entry; a file that
      shrank has its entry, a cancellation is found before the entry. */
  ghost predicate WalkWrote(worlds: seq<Nodes>, root: Path, p: Path, es: seq<Entry>,
                            err: Option<CompressError>, stop: Path, half: bool)
    requires worlds != []
  {
    var part := Part(worlds[0].Keys, root, p);
    && AllDescribed(worlds, root, es)
    && match err
       case None => Enumerates(PathsOf(es), part) && AllVisitable(worlds[0], root, part + {p})
       case Some(why) =>
         && p <= stop && root + stop in worlds[0]
         && Enumerates(PathsOf(es), UpTo(part, stop, half))
         && Reason(worlds, root, stop, why)
         && (why.FileShrank? ==> half) && (why.Canceled? ==> !half)
  }

  /** What the callback has written for one path. */
  ghost predicate VisitWrote(worlds: seq<Nodes>, root: Path, p: Path, es: seq<Entry>,
                             err: Option<CompressError>, half: bool)
    requires worlds != [] && root + p in worlds[0]
  {
    match err
    case None =>
      Visitable(worlds[0], root, p) && AllDescribed(worlds, root, es) && Enumerates(PathsOf(es), Itself(p))
    case Some(_) => WalkWrote(worlds, root, p, es, err, p, half)
  }

  /** The path itself, except that the root gets no entry. */
  ghost function Itself(p: Path): set<Path>
  {
    if p == [] then {} else {p}
  }

  lemma {:induction false} VisitedNothing(worlds: seq<Nodes>, root: Path, p: Path, err: Option<CompressError>)
    requires worlds != [] && root + p in worlds[0]
    requires if err.None? then p == [] && Visitable(worlds[0], root, p) else Reason(worlds, root, p, err.value)
    requires err != Some(FileShrank)
    ensures VisitWrote(worlds, root, p, [], err, false)
  {
    StoppedAtTop(worlds[0].Keys, root, p);
  }

  lemma {:induction false} VisitedOne(worlds: seq<Nodes>, root: Path, p: Path, e: Entry, err: Option<CompressError>)
    requires worlds != [] && root + p in worlds[0] && p != []
    requires PathOf(e) == p && Describes(worlds, root, e)
    requires if err.None? then Visitable(worlds[0], root, p) else Reason(worlds, root, p, err.value)
    requires err != Some(Canceled)
    ensures VisitWrote(worlds, root, p, [e], err, true)
  {
    StoppedAtTop(worlds[0].Keys, root, p);
    OneEntry(worlds, root, e);
  }

  lemma {:induction false} OneEntry(worlds: seq<Nodes>, root: Path, e: Entry)
    requires worlds != [] && Describes(worlds, root, e)
    ensures AllDescribed(worlds, root, [e]) && Enumerates(PathsOf([e]), {PathOf(e)})
  {
    assert PathsOf([e]) == [PathOf(e)];
  }

  /** Entries written one after the other, for paths that follow one another. */
  lemma {:induction false} EntriesAppend(worlds: seq<Nodes>, root: Path, es: seq<Entry>, s: set<Path>,
                                         more: seq<Entry>, t: set<Path>)
    requires worlds != [] && AllDescribed(worlds, root, es) && AllDescribed(worlds, root, more)
    requires Enumerates(PathsOf(es), s) && Enumerates(PathsOf(more), t)
    requires forall a, b :: a in s && b in t ==> Before(a, b)
    ensures AllDescribed(worlds, root, es + more) && Enumerates(PathsOf(es + more), s + t)
  {
    DescribedAppend(worlds, root, es, more);
    EnumerationAppend(PathsOf(es), s, PathsOf(more), t);
    PathsAppend(es, more);
  }

  lemma {:induction false} PathsAppend(es: seq<Entry>, more: seq<Entry>)
    ensures PathsOf(es + more) == PathsOf(es) + PathsOf(more)
  {
  }

  lemma {:induction false} DescribedAppend(worlds: seq<Nodes>, root: Path, es: seq<Entry>, more: seq<Entry>)
    requires worlds != [] && AllDescribed(worlds, root, es) && AllDescribed(worlds, root, more)
    ensures AllDescribed(worlds, root, es + more)
  {
    forall i | 0 <= i < |es + more|
      ensures Describes(worlds, root, (es + more)[i])
    {
      if i < |es| { assert (es + more)[i] == es[i]; } else { assert (es + more)[i] == more[i - |es|]; }
    }
  }

  lemma {:induction false} VisitableTogether(fs: Nodes, root: Path, s: set<Path>, t: set<Path>)
    requires AllVisitable(fs, root, s) && AllVisitable(fs, root, t)
    ensures forall u: set<Path> :: u <= s + t ==> AllVisitable(fs, root, u)
  {
  }

  /** The state of a walk after `p` itself and its first `i` children. */
  ghost predicate Progress(worlds: seq<Nodes>, root: Path, p: Path, names: seq<string>, i: nat, es: seq<Entry>)
    requires worlds != [] && i <= |names|
  {
    var visited := Visited(worlds[0].Keys, root, p, names, i);
    && Children(worlds[0].Keys, root, p, names)
    && AllDescribed(worlds, root, es)
    && Enumerates(PathsOf(es), visited)
    && AllVisitable(worlds[0], root, visited + {p})
  }

  lemma {:induction false} WalkStarts(worlds: seq<Nodes>, root: Path, p: Path, names: seq<string>, es: seq<Entry>)
    requires worlds != [] && root + p in worlds[0] && Children(worlds[0].Keys, root, p, names)
    requires VisitWrote(worlds, root, p, es, None, false) || VisitWrote(worlds, root, p, es, None, true)
    ensures Progress(worlds, root, p, names, 0, es)
  {
    VisitedNone(worlds[0].Keys, root, p, names);
  }

  /** One more child done. */
  lemma {:induction false} ChildDone(worlds: seq<Nodes>, root: Path, p: Path, names: seq<string>, i: nat,
                                     es: seq<Entry>, more: seq<Entry>, stop: Path, half: bool)
    requires worlds != [] && i < |names| && Progress(worlds, root, p, names, i, es)
    requires WalkWrote(worlds, root, p + [names[i]], more, None, stop, half)
    ensures Progress(worlds, root, p, names, i + 1, es + more)
  {
    var keys, child := worlds[0].Keys, p + [names[i]];
    VisitedBeforeChild(keys, root, p, names, i);
    VisitedChild(keys, root, p, names, i);
    EntriesAppend(worlds, root, es, Visited(keys, root, p, names, i), more, Part(keys, root, child));
    VisitableTogether(worlds[0], root, Visited(keys, root, p, names, i) + {p}, Part(keys, root, child) + {child});
  }

  /** The walk stopped under a child. */
  lemma {:induction false} ChildStopped(worlds: seq<Nodes>, root: Path, p: Path, names: seq<string>, i: nat,
                                        es: seq<Entry>, more: seq<Entry>, err: CompressError, stop: Path, half: bool)
    requires worlds != [] && Tree(worlds[0]) && i < |names| && Progress(worlds, root, p, names, i, es)
    requires WalkWrote(worlds, root, p + [names[i]], more, Some(err), stop, half)
    ensures WalkWrote(worlds, root, p, es + more, Some(err), stop, half)
  {
    var keys, child := worlds[0].Keys, p + [names[i]];
    var rest := UpTo(Part(keys, root, child), stop, half);
    VisitedBeforeChild(keys, root, p, names, i);
    StoppedUnderChild(worlds[0], root, p, names, i, stop, half);
    EntriesAppend(worlds, root, es, Visited(keys, root, p, names, i), more, rest);
    assert stop[..|p|] == stop[..|child|][..|p|] == p;
  }

  lemma {:induction false} WalkEnded(worlds: seq<Nodes>, root: Path, p: Path, names: seq<string>,
                                     es: seq<Entry>, stop: Path, half: bool)
    requires worlds != [] && Tree(worlds[0]) && Progress(worlds, root, p, names, |names|, es)
    ensures WalkWrote(worlds, root, p, es, None, stop, half)
  {
    VisitedAll(worlds[0], root, p, names);
  }

  lemma {:induction false} LeafWalked(worlds: seq<Nodes>, root: Path, p: Path, es: seq<Entry>, stop: Path, half: bool)
    requires worlds != [] && Tree(worlds[0]) && root + p in worlds[0] && !worlds[0][root + p].Dir?
    requires VisitWrote(worlds, root, p, es, None, half)
    ensures WalkWrote(worlds, root, p, es, None, stop, half)
  {
    LeafPart(worlds[0], root, p);
  }

  lemma {:induction false} ChildIsThere(worlds: seq<Nodes>, root: Path, p: Path, names: seq<string>, i: nat,
                                        es: seq<Entry>)
    requires worlds != [] && root + p in worlds[0] && i < |names| && Progress(worlds, root, p, names, i, es)
    ensures root + (p + [names[i]]) in worlds[0]
    ensures Under(worlds[0].Keys, root + (p + [names[i]])) < Under(worlds[0].Keys, root + p)
  {
    assert root + (p + [names[i]]) == root + p + [names[i]];
    UnderChild(worlds[0].Keys, root + p, names[i]);
  }

  // ---------------------------------------------------------------- whole runs

  lemma WholePart(keys: set<Path>, root: Path)
    ensures Part(keys, root, []) == Below(keys, root)
  {
    forall q | q in Below(keys, root)
      ensures [] <= q
    {
    }
  }

  /** The walk itself never reports a missing root. */
  lemma {:induction false} WalkErrors(worlds: seq<Nodes>, root: Path, p: Path, es: seq<Entry>,
                                      err: Option<CompressError>, stop: Path, half: bool)
    requires worlds != [] && WalkWrote(worlds, root, p, es, err, stop, half)
    ensures err != Some(NoRoot)
  {
  }

  /** Nobody changes a file below the root, whatever happens elsewhere. */
  ghost predicate Quiet(worlds: seq<Nodes>, root: Path)
  {
    worlds != [] && forall p :: p in Below(worlds[0].Keys, root) ==> Undisturbed(worlds, root + p)
  }

  /** A file that nobody changes does not shrink. */
  lemma {:induction false} QuietFilesKeepTheirSize(worlds: seq<Nodes>, loc: Path)
    requires Undisturbed(worlds, loc)
    ensures forall t :: !HasShrunk(worlds, loc, t)
  {
  }

  /** The trees that can be archived. */
  ghost predicate CanArchive(fs: Nodes, root: Path)
  {
    root in fs && forall q :: q == [] || q in Below(fs.Keys, root) ==> root + q in fs && Visitable(fs, root, q)
  }

  /** Which trees can be archived: the root is there, is no device, and resolves if it is a link; below
      it there is no device, and every link resolves, over at most 40 links, to an object that opens. */
  lemma {:induction false} CanArchiveIff(fs: Nodes, root: Path)
    requires Tree(fs)
    ensures CanArchive(fs, root) <==>
            && root in fs && !fs[root].Other?
            && (fs[root].Link? ==> Walk(fs, [], root, 0, 255).Found?)
            && forall q :: root + q in fs && q != [] ==> !fs[root + q].Other? && LinkOpens(fs, root + q)
  {
    assert root + [] == root;
    forall q | q != []
      ensures q in Below(fs.Keys, root) <==> root + q in fs
    {
      BelowMember(fs.Keys, root, q);
    }
    forall q | q != [] && root + q in fs
      ensures Visitable(fs, root, q) <==> !fs[root + q].Other? && LinkOpens(fs, root + q)
    {
      if fs[root + q].Link? { LinkArchivedIff(fs, root + q); }
    }
  }

  /** A link resolves, over at most 40 links, to an object that opens. */
  predicate LinkOpens(fs: Nodes, loc: Path)
    requires loc in fs
  {
    fs[loc].Link? ==>
      var w := Walk(fs, [], loc, 0, 255);
      w.Found? && w.links <= 40 && w.loc in fs && fs[w.loc] != Other(false)
  }

  /** A run that goes to its end shows that the tree can be archived, whatever happens to files
      meanwhile. */
  lemma {:induction false} SuccessVisitsAll(worlds: seq<Nodes>, root: Path, es: seq<Entry>, stop: Path, half: bool)
    requires worlds != [] && root in worlds[0] && WalkWrote(worlds, root, [], es, None, stop, half)
    ensures CanArchive(worlds[0], root)
  {
    var fs := worlds[0];
    WholePart(fs.Keys, root);
    assert root + [] == root;
    forall q | q == [] || q in Below(fs.Keys, root)
      ensures root + q in fs && Visitable(fs, root, q)
    {
      BelowMember(fs.Keys, root, q);
    }
  }

  /** An error shows that it cannot be archived, unless it is a cancellation or a file that shrank;
      and where nobody changes files below the root, no file shrinks. */
  lemma {:induction false} WhyRunFails(worlds: seq<Nodes>, root: Path, es: seq<Entry>, err: CompressError,
                                       stop: Path, half: bool)
    requires worlds != [] && root in worlds[0] && WalkWrote(worlds, root, [], es, Some(err), stop, half)
    ensures err != Canceled && err != FileShrank ==> !CanArchive(worlds[0], root)
    ensures Quiet(worlds, root) ==> err != FileShrank
  {
    BelowMember(worlds[0].Keys, root, stop);
    if Quiet(worlds, root) && stop != [] { QuietFilesKeepTheirSize(worlds, root + stop); }
  }

  /** When nobody changes the files below the root, a run that goes to its end has written the
      archive. */
  lemma {:induction false} QuietRun(worlds: seq<Nodes>, root: Path, es: seq<Entry>, stop: Path, half: bool)
    requires Quiet(worlds, root) && WalkWrote(worlds, root, [], es, None, stop, half) && AllComplete(es)
    ensures ArchiveOf(worlds[0], root, es)
  {
    WholePart(worlds[0].Keys, root);
    forall i | 0 <= i < |es|
      ensures Represents(worlds[0], root, es[i])
    {
      QuietEntry(worlds, root, es, i);
    }
  }

  lemma {:induction false} QuietEntry(worlds: seq<Nodes>, root: Path, es: seq<Entry>, i: nat)
    requires Quiet(worlds, root) && i < |es| && AllComplete(es)
    requires AllDescribed(worlds, root, es) && AllVisitable(worlds[0], root, Below(worlds[0].Keys, root) + {[]})
    requires Enumerates(PathsOf(es), Below(worlds[0].Keys, root))
    ensures Represents(worlds[0], root, es[i])
  {
    assert Describes(worlds, root, es[i]);
    assert PathsOf(es)[i] in Below(worlds[0].Keys, root);
    UndisturbedEntry(worlds, root, es[i]);
  }

  /** The entry as if it had announced no more than its body holds. */
  function Trimmed(e: Entry): Entry
  {
    e.(h := e.h.(size := |e.body|))
  }

  function TrimmedAll(es: seq<Entry>): (r: seq<Entry>)
    ensures |r| == |es|
    ensures forall i :: 0 <= i < |es| ==> r[i] == Trimmed(es[i])
  {
    seq(|es|, i requires 0 <= i < |es| => Trimmed(es[i]))
  }

  lemma {:induction false} TrimmedPaths(es: seq<Entry>)
    ensures PathsOf(TrimmedAll(es)) == PathsOf(es)
  {
  }

  /** Only a file's body can fall short of its announced size. */
  lemma {:induction false} DescribedIsGood(worlds: seq<Nodes>, root: Path, e: Entry)
    requires Timeline(worlds) && Describes(worlds, root, e)
    ensures GoodEntry(Trimmed(e)) && PathOf(Trimmed(e)) == PathOf(e)
    ensures e.h.flag.TypeDir? <==> worlds[0][root + PathOf(e)].Dir?
    ensures !Complete(e) ==> e.h.flag.TypeReg?
    ensures Complete(e) ==> Trimmed(e) == e
  {
    var p := PathOf(e);
    RelativeName(worlds[0], root, p);
    if worlds[0][root + p].Link? {
      WalkEnds(worlds[0], [], root + p, 0, EVAL_LINKS);
      var target := EvalSymlinks(worlds[0], root + p).value;
      LocationsAreNames(worlds[0], target);
      JoinRel(root, target);
    }
  }

  /** Whatever a run has written, complete or stopped anywhere, is a replayable archive, except that
      its last body may be shorter than announced. */
  lemma {:induction false} RunIsReplayable(worlds: seq<Nodes>, root: Path, es: seq<Entry>,
                                           err: Option<CompressError>, stop: Path, half: bool)
    requires Timeline(worlds) && WalkWrote(worlds, root, [], es, err, stop, half)
    ensures Replayable(TrimmedAll(es)) && PathsOf(TrimmedAll(es)) == PathsOf(es)
    ensures AllComplete(es) ==> TrimmedAll(es) == es
  {
    var r := TrimmedAll(es);
    WholePart(worlds[0].Keys, root);
    TrimmedPaths(es);
    forall i | 0 <= i < |es|
      ensures GoodEntry(r[i]) && (Complete(es[i]) ==> r[i] == es[i])
    {
      DescribedIsGood(worlds, root, es[i]);
    }
    forall i | 0 <= i < |es|
      ensures ParentCameFirst(r, i)
    {
      ParentWrittenFirst(worlds, root, es, err, stop, half, i);
    }
  }

  lemma {:induction false} ParentWrittenFirst(worlds: seq<Nodes>, root: Path, es: seq<Entry>,
                                              err: Option<CompressError>, stop: Path, half: bool, i: nat)
    requires Timeline(worlds) && WalkWrote(worlds, root, [], es, err, stop, half) && i < |es|
    ensures ParentCameFirst(TrimmedAll(es), i)
  {
    var r, p := TrimmedAll(es), PathOf(es[i]);
    WholePart(worlds[0].Keys, root);
    if |p| > 1 {
      var all, ps := Below(worlds[0].Keys, root), PathsOf(es);
      var s := if err.None? then all else UpTo(all, stop, half);
      assert ps[i] in s;
      ParentIsIn(worlds, root, s, err, stop, half, p);
      PrefixBefore(Parent(p), p);
      var j :| 0 <= j < |ps| && ps[j] == Parent(p);
      SortedDistinct(ps, j, i);
      DescribedIsGood(worlds, root, es[j]);
      assert r[j].h.flag.TypeDir? && PathOf(r[j]) == Parent(PathOf(r[i]));
    }
  }

  lemma {:induction false} ParentIsIn(worlds: seq<Nodes>, root: Path, s: set<Path>,
                                      err: Option<CompressError>, stop: Path, half: bool, p: Path)
    requires worlds != [] && Tree(worlds[0]) && p in s && |p| > 1
    requires s == var all := Below(worlds[0].Keys, root); if err.None? then all else UpTo(all, stop, half)
    ensures Parent(p) in s && IsDirectory(worlds[0], root + Parent(p))
  {
    var keys := worlds[0].Keys;
    BelowMember(keys, root, p);
    assert root + Parent(p) == Parent(root + p);
    BelowMember(keys, root, Parent(p));
    PrefixBefore(Parent(p), p);
    if err.Some? && p != stop {
      BeforeTransitive(Parent(p), p, stop);
    }
  }
}
