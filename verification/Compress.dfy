/** CompressGZIPFile: the walk over a directory tree that writes its archive, while other
    processes may rewrite the files it reads. */
module Compress {
  import opened Options
  import opened Contexts
  import opened Filepath
  import opened Disk
  import opened Tar
  import opened Order
  import opened Archive
  import opened WalkOrder
  import opened Source
  import opened Written

  const CHUNK: nat := 32768

  /** The entries after one more chunk, read at the end of the last body. */
  lemma {:induction false} ChunkAppended(worlds: seq<Nodes>, start: nat, now: nat, loc: Path,
                                         es: seq<Entry>, limit: nat, chunk: seq<Byte>)
    requires start <= now < |worlds| && es != [] && limit > 0
    requires BodySeen(worlds, start, loc, es[|es| - 1].body)
    requires chunk == Slice(worlds[now], loc, |es[|es| - 1].body|, limit)
    ensures |chunk| <= limit
    ensures var x, n := Extended(es, chunk), |es| - 1;
            && |x| == |es| && x[..n] == es[..n] && x[n].h == es[n].h
            && |x[n].body| == |es[n].body| + |chunk|
            && BodySeen(worlds, start, loc, x[n].body)
    ensures chunk == [] ==> |BytesAt(worlds[now], loc)| <= |es[|es| - 1].body|
  {
    var last := es[|es| - 1];
    BodySeenMore(worlds, start, now, loc, last.body, limit);
    if chunk == [] { assert last.body + chunk == last.body; }
  }

  /** One read from the file and one write to the archive. */
  method CopyChunk(src: SourceDisk, loc: Path, tw: TarWriter, copied: nat) returns (count: nat, ghost chunk: seq<Byte>)
    requires src.Valid() && tw.Valid() && !tw.closed
    requires tw.remaining > 0
    modifies src, tw
    ensures src.Valid() && tw.Valid() && !tw.closed && old(src.now) <= src.now
    ensures count == |chunk| <= old(tw.remaining) && tw.remaining == old(tw.remaining) - count
    ensures tw.entries == Extended(old(tw.entries), chunk)
    ensures exists limit: nat ::
              0 < limit <= old(tw.remaining) && chunk == Slice(src.worlds[src.now], loc, copied, limit)
  {
    var limit := if tw.remaining <= CHUNK then tw.remaining else CHUNK;
    var data := src.Read(loc, copied, limit);
    var werr := tw.Write(data);
    assert werr.None?;  // never more than announced
    assert data[..|data|] == data;
    count, chunk := |data|, data;
  }

  /** Only the body of the last entry may differ. */
  ghost predicate LastBodyOnly(before: seq<Entry>, after: seq<Entry>)
  {
    var n := |before| - 1;
    |after| == |before| > 0 && after[..n] == before[..n] && after[n].h == before[n].h
  }

  function LastBody(es: seq<Entry>): seq<Byte>
  {
    if es == [] then [] else es[|es| - 1].body
  }

  /** What the body of an entry for the object holds: bytes of a regular file, and none of others. */
  ghost predicate BodyFits(worlds: seq<Nodes>, t: nat, path: Path, body: seq<Byte>)
    requires worlds != [] && path in worlds[0]
  {
    if worlds[0][path].File? then BodySeen(worlds, t, path, body) else body == []
  }

  /** io.CopyN from the opened file to the tar writer. It fails only when the file has become
      shorter than announced, and surely when it stays so. */
  method CopyN(src: SourceDisk, loc: Path, tw: TarWriter, size: nat) returns (err: Option<CompressError>)
    requires src.Valid() && tw.Valid() && !tw.closed
    requires tw.entries != [] && LastBody(tw.entries) == [] && tw.remaining == size
    modifies src, tw
    ensures src.Valid() && tw.Valid() && !tw.closed && old(src.now) <= src.now
    ensures LastBodyOnly(old(tw.entries), tw.entries)
    ensures |LastBody(tw.entries)| + tw.remaining == size
    ensures BodySeen(src.worlds, old(src.now), loc, LastBody(tw.entries))
    ensures err.None? <==> tw.remaining == 0
    ensures err.Some? ==> err.value == FileShrank && ShorterThan(src.worlds, loc, size)
    ensures size > 0 && StaysShorter(src.worlds, old(src.now), loc, size) ==> err.Some?
  {
    var copied := 0;
    ghost var n, start, before := |tw.entries| - 1, src.now, tw.entries;
    while copied < size
      invariant src.Valid() && tw.Valid() && !tw.closed && start <= src.now
      invariant |tw.entries| == n + 1 && tw.entries[..n] == before[..n] && tw.entries[n].h == before[n].h
      invariant copied == |tw.entries[n].body| <= size && tw.remaining == size - copied
      invariant BodySeen(src.worlds, start, loc, tw.entries[n].body)
      decreases size - copied
    {
      ghost var es := tw.entries;
      var count;
      ghost var chunk;
      count, chunk := CopyChunk(src, loc, tw, copied);
      ghost var limit: nat :| 0 < limit && chunk == Slice(src.worlds[src.now], loc, copied, limit);
      ChunkAppended(src.worlds, start, src.now, loc, es, limit, chunk);
      if count == 0 {
        return Some(FileShrank);
      }
      copied := copied + count;
    }
    if size > 0 {
      NoFullBody(src.worlds, start, loc, tw.entries[n].body);
    }
    err := None;
  }

  /** tar.FileInfoHeader, with the name set by the callback. */
  function HeaderOf(info: Node, relpath: string, link: string): Header
  {
    match info
    case Dir(mode) => Header(relpath + "/", TypeDir, mode, 0, "")
    case File(mode, bytes) => Header(relpath, TypeReg, mode, |bytes|, "")
    case Link(_) => Header(relpath, TypeSymlink, LINK_MODE, 0, link)
    case Other(_) => Header(relpath, TypeOther, 0, 0, "")
  }

  /** The first half of the callback: decides whether the object can be archived and, unless it is
      the root, computes its header. */
  method Inspect(ctx: Context, src: SourceDisk, root: Path, p: Path)
    returns (header: Option<Header>, err: Option<CompressError>)
    requires src.Valid() && root + p in src.worlds[0]
    modifies ctx, src
    ensures src.Valid() && ctx.left == PolledOnce(old(ctx.left))
    ensures err == Some(Canceled) <==> old(ctx.left) == Some(0)
    ensures err.Some? ==> err.value != FileShrank && Reason(src.worlds, root, p, err.value)
    ensures err.None? ==> header.None? == (p == [])
    ensures err.None? && p == [] ==> Visitable(src.worlds[0], root, p)
    ensures err.None? && p != [] ==> HeaderFits(src.worlds, src.now, root, p, header.value)
  {
    header := None;
    ghost var worlds := src.worlds;
    var path := root + p;
    var cancelled := ctx.Err();
    if cancelled { return None, Some(Canceled); }
    ShapeIsTree(worlds, src.now);
    ShapeResolves(worlds, src.now, path);
    var link := "";
    if src.Nodes()[path].Link? {
      var symlink := EvalSymlinks(src.Nodes(), path);
      if symlink.None? { return None, Some(BadLink); }
      LinkHasText(src.Nodes(), root, p);
      link := Rel(Absolute(root), Absolute(symlink.value)).value;
    }
    if src.Nodes()[path].Other? { return None, Some(Unsupported); }
    RelativeName(worlds[0], root, p);
    var relpath := Rel(Absolute(root), Absolute(path)).value;
    if relpath == "." { return None, None; }
    src.Tick();
    ShapeIsTree(worlds, src.now);
    header := Some(HeaderOf(src.Nodes()[path], relpath, link));
    err := None;
  }

  /** Opens the object and copies as many bytes as its header announced. */
  method CopyBody(src: SourceDisk, tw: TarWriter, path: Path, size: nat) returns (err: Option<CompressError>)
    requires src.Valid() && tw.Valid() && !tw.closed && path in src.worlds[0]
    requires tw.entries != [] && LastBody(tw.entries) == [] && tw.remaining == size
    requires src.worlds[0][path].File? || size == 0
    modifies src, tw
    ensures src.Valid() && tw.Valid() && !tw.closed
    ensures LastBodyOnly(old(tw.entries), tw.entries)
    ensures BodyFits(src.worlds, old(src.now), path, LastBody(tw.entries))
    ensures CopyOutcome(src.worlds, path, size, err)
    ensures err == Some(FileShrank) <==> tw.remaining > 0
  {
    ghost var t, before := src.now, tw.entries;
    var handle := src.Open(path);
    assert tw.entries == before;
    if handle.None? {
      return Some(CannotOpen);
    }
    err := CopyOpened(src, tw, path, handle.value, size, t);
  }

  /** Copies from the opened object. */
  method CopyOpened(src: SourceDisk, tw: TarWriter, path: Path, loc: Path, size: nat, ghost t: nat)
    returns (err: Option<CompressError>)
    requires src.Valid() && tw.Valid() && !tw.closed && path in src.worlds[0]
    requires tw.entries != [] && LastBody(tw.entries) == [] && tw.remaining == size
    requires OpenTarget(src.worlds[0], path) == Some(loc) && t <= src.now
    requires if src.worlds[0][path].File? then loc == path else size == 0
    modifies src, tw
    ensures src.Valid() && tw.Valid() && !tw.closed
    ensures LastBodyOnly(old(tw.entries), tw.entries)
    ensures BodyFits(src.worlds, t, path, LastBody(tw.entries))
    ensures CopyOutcome(src.worlds, path, size, err)
    ensures err == Some(FileShrank) <==> tw.remaining > 0
  {
    ghost var worlds, start := src.worlds, src.now;
    err := CopyN(src, loc, tw, size);
    CopyEnded(worlds, t, start, path, loc, size, LastBody(tw.entries), err);
  }

  /** What a copy from the opened object says about the object at the path. */
  lemma {:induction false} CopyEnded(worlds: seq<Nodes>, t: nat, start: nat, path: Path, loc: Path, size: nat,
                                     body: seq<Byte>, err: Option<CompressError>)
    requires worlds != [] && path in worlds[0] && OpenTarget(worlds[0], path) == Some(loc)
    requires if worlds[0][path].File? then loc == path else size == 0
    requires t <= start && BodySeen(worlds, start, loc, body) && |body| <= size
    requires err.None? || (err.value == FileShrank && ShorterThan(worlds, loc, size))
    ensures CopyOutcome(worlds, path, size, err)
    ensures BodyFits(worlds, t, path, body)
  {
    LaterSeen(worlds, t, start, loc, body);
  }

  /** Writes the header and, unless it is a directory's, the body. */
  method WriteEntry(src: SourceDisk, tw: TarWriter, path: Path, h: Header)
    returns (err: Option<CompressError>, ghost e: Entry)
    requires src.Valid() && tw.Valid() && !tw.closed && tw.remaining == 0
    requires path in src.worlds[0] && Payload(h) == h.size
    requires src.worlds[0][path].File? || h.size == 0
    requires h.flag.TypeDir? <==> src.worlds[0][path].Dir?
    modifies src, tw
    ensures src.Valid() && tw.Valid() && !tw.closed
    ensures tw.entries == old(tw.entries) + [e] && e.h == h
    ensures BodyFits(src.worlds, old(src.now), path, e.body)
    ensures err == Some(FileShrank) <==> tw.remaining > 0
    ensures if h.flag.TypeDir? then err.None? else CopyOutcome(src.worlds, path, h.size, err)
  {
    ghost var n, before := |tw.entries|, tw.entries;
    var werr := tw.WriteHeader(h);
    assert werr.None?;  // no body is ever outstanding here
    err := None;
    if !h.flag.TypeDir? {
      err := CopyBody(src, tw, path, h.size);
    }
    e := tw.entries[n];
    LastSplit(tw.entries);
  }

  lemma LastSplit(es: seq<Entry>)
    requires es != []
    ensures es == es[..|es| - 1] + [es[|es| - 1]]
  {
  }

  /** The second half of the callback: the entry that is written describes the object. */
  method Emit(src: SourceDisk, tw: TarWriter, root: Path, p: Path, h: Header)
    returns (err: Option<CompressError>, ghost e: Entry)
    requires src.Valid() && tw.Valid() && !tw.closed && tw.remaining == 0
    requires p != [] && root + p in src.worlds[0] && HeaderFits(src.worlds, src.now, root, p, h)
    modifies src, tw
    ensures src.Valid() && tw.Valid() && !tw.closed
    ensures tw.entries == old(tw.entries) + [e]
    ensures PathOf(e) == p && Describes(src.worlds, root, e)
    ensures err == Some(FileShrank) <==> tw.remaining > 0
    ensures err.None? ==> Visitable(src.worlds[0], root, p)
    ensures err.Some? ==> err.value != Canceled && Reason(src.worlds, root, p, err.value)
  {
    ghost var t := src.now;
    HeaderFacts(src.worlds, t, root, p, h);
    err, e := WriteEntry(src, tw, root + p, h);
    FittingEntry(src.worlds, t, root, p, e);
    WhyEmitFails(src.worlds, t, root, p, h, err);
  }

  /** The polls of a walk: one for each of the n objects it went through, none found cancelled, and
      then, if the walk was cancelled, no more left. Another error may come with a poll of its own. */
  predicate Polled(before: Option<nat>, after: Option<nat>, n: nat, err: Option<CompressError>)
  {
    if before.None? then after.None? && err != Some(Canceled)
    else
      && after.Some?
      && match err
         case None => before.value == after.value + n
         case Some(Canceled) => before.value == n && after.value == 0
         case _ => before.value >= after.value + n
  }

  lemma PolledTogether(a: Option<nat>, b: Option<nat>, c: Option<nat>, n: nat, m: nat, err: Option<CompressError>)
    requires Polled(a, b, n, None) && Polled(b, c, m, err)
    ensures Polled(a, c, n + m, err)
  {
  }

  /** The objects a walk of `p` went through: those with entries, and the root if it went beyond. */
  function WentThrough(p: Path, es: seq<Entry>, err: Option<CompressError>, stop: Path): nat
  {
    |es| + if p == [] && (err.None? || stop != []) then 1 else 0
  }

  /** The callback: what it does with one path. */
  method Visit(ctx: Context, src: SourceDisk, tw: TarWriter, root: Path, p: Path)
    returns (err: Option<CompressError>, ghost es: seq<Entry>, ghost half: bool)
    requires src.Valid() && tw.Valid() && !tw.closed && tw.remaining == 0
    requires root + p in src.worlds[0]
    modifies ctx, src, tw
    ensures src.Valid() && tw.Valid() && !tw.closed
    ensures tw.entries == old(tw.entries) + es
    ensures err == Some(FileShrank) <==> tw.remaining > 0
    ensures VisitWrote(src.worlds, root, p, es, err, half)
    ensures Polled(old(ctx.left), ctx.left, WentThrough(p, es, err, p), err)
  {
    var header;
    header, err := Inspect(ctx, src, root, p);
    if err.None? && header.Some? {
      ghost var e;
      err, e := Emit(src, tw, root, p, header.value);
      es, half := [e], true;
      VisitedOne(src.worlds, root, p, e, err);
    } else {
      es, half := [], false;
      VisitedNothing(src.worlds, root, p, err);
    }
  }

  /** filepath.WalkDir with the callback: the object itself, then its children in name order. */
  method WalkDir(ctx: Context, src: SourceDisk, tw: TarWriter, root: Path, p: Path)
    returns (err: Option<CompressError>, ghost es: seq<Entry>, ghost stop: Path, ghost half: bool)
    requires src.Valid() && tw.Valid() && !tw.closed && tw.remaining == 0
    requires root + p in src.worlds[0]
    modifies ctx, src, tw
    ensures src.Valid() && tw.Valid() && !tw.closed
    ensures tw.entries == old(tw.entries) + es
    ensures err == Some(FileShrank) <==> tw.remaining > 0
    ensures WalkWrote(src.worlds, root, p, es, err, stop, half)
    ensures Polled(old(ctx.left), ctx.left, WentThrough(p, es, err, stop), err)
    decreases Under(src.worlds[0].Keys, root + p), 1
  {
    ghost var worlds := src.worlds;
    stop := p;
    err, es, half := Visit(ctx, src, tw, root, p);
    if err.Some? { return; }
    ShapeIsTree(worlds, src.now);
    if !src.Nodes()[root + p].Dir? {
      LeafWalked(worlds, root, p, es, stop, half);
      return;
    }
    var names := src.ReadDir(root + p);
    WalkStarts(worlds, root, p, names, es);
    ghost var first, more, left := es, [], ctx.left;
    err, more, stop, half := WalkChildren(ctx, src, tw, root, p, names, first);
    es := first + more;
    PolledTogether(old(ctx.left), left, ctx.left, WentThrough(p, first, None, p), |more|, err);
    AppendTwice(old(tw.entries), first, more);
  }

  lemma AppendTwice(a: seq<Entry>, b: seq<Entry>, c: seq<Entry>)
    ensures a + b + c == a + (b + c)
  {
  }

  /** The loop over the names of a directory. */
  method WalkChildren(ctx: Context, src: SourceDisk, tw: TarWriter, root: Path, p: Path, names: seq<string>,
                      ghost first: seq<Entry>)
    returns (err: Option<CompressError>, ghost es: seq<Entry>, ghost stop: Path, ghost half: bool)
    requires src.Valid() && tw.Valid() && !tw.closed && tw.remaining == 0
    requires root + p in src.worlds[0] && Progress(src.worlds, root, p, names, 0, first)
    modifies ctx, src, tw
    ensures src.Valid() && tw.Valid() && !tw.closed
    ensures tw.entries == old(tw.entries) + es
    ensures err == Some(FileShrank) <==> tw.remaining > 0
    ensures WalkWrote(src.worlds, root, p, first + es, err, stop, half)
    ensures Polled(old(ctx.left), ctx.left, |es|, err) && (err.Some? ==> stop != [])
    decreases Under(src.worlds[0].Keys, root + p), 0
  {
    ghost var worlds := src.worlds;
    err, es, stop, half := None, [], p, false;
    var i := 0;
    assert first + es == first;
    while i < |names|
      invariant i <= |names| && Progress(worlds, root, p, names, i, first + es)
      invariant src.Valid() && tw.Valid() && !tw.closed && tw.remaining == 0
      invariant tw.entries == old(tw.entries) + es && err.None?
      invariant Polled(old(ctx.left), ctx.left, |es|, None)
    {
      ghost var done, more, left := es, [], ctx.left;
      ChildIsThere(worlds, root, p, names, i, first + es);
      err, more, stop, half := WalkDir(ctx, src, tw, root, p + [names[i]]);
      es := done + more;
      PolledTogether(old(ctx.left), left, ctx.left, |done|, |more|, err);
      AppendTwice(old(tw.entries), done, more);
      AppendTwice(first, done, more);
      if err.Some? {
        ChildStopped(worlds, root, p, names, i, first + done, more, err.value, stop, half);
        return;
      }
      ChildDone(worlds, root, p, names, i, first + done, more, stop, half);
      i := i + 1;
    }
    WalkEnded(worlds, root, p, names, first + es, stop, half);
  }

  /** What the archive holds after the deferred Close of the tar writer: the end marker is written
      whatever the error was, unless a body is incomplete. */
  function Sealed(es: seq<Entry>): seq<Token>
    requires Framed(es)
  {
    Encode(es) + if Outstanding(es) == 0 then [End] else []
  }

  /** What a run leaves is a stream the extractor can read, complete or cut short. */
  lemma {:induction false} SealedHolds(es: seq<Entry>)
    requires Framed(es)
    ensures Holds(Sealed(es), es)
  {
    StreamHolds(Sealed(es), es, if Outstanding(es) == 0 then [End] else []);
  }

  /** The walk from the root, as far as it gets. */
  method ArchiveTree(ctx: Context, src: SourceDisk, tw: TarWriter, root: Path)
    returns (err: Option<CompressError>, ghost stop: Path, ghost half: bool)
    requires src.Valid() && tw.Valid() && !tw.closed && tw.entries == []
    modifies ctx, src, tw
    ensures tw.Valid() && !tw.closed
    ensures err == Some(FileShrank) <==> Outstanding(tw.entries) > 0
    ensures err == Some(NoRoot) <==> root !in src.worlds[0]
    ensures root !in src.worlds[0] ==> tw.entries == []
    ensures root in src.worlds[0] ==> WalkWrote(src.worlds, root, [], tw.entries, err, stop, half)
    ensures root in src.worlds[0] ==> Polled(old(ctx.left), ctx.left, WentThrough([], tw.entries, err, stop), err)
  {
    stop, half := [], false;
    ShapeIsTree(src.worlds, src.now);
    if root !in src.Nodes() {
      return Some(NoRoot), [], false;
    }
    assert root + [] == root;
    ghost var es;
    err, es, stop, half := WalkDir(ctx, src, tw, root, []);
    assert tw.entries == [] + es == es;
    WalkErrors(src.worlds, root, [], es, err, stop, half);
  }

  /** The whole compression. A run that is cancelled on entry writes nothing at all. The ghost
      results say what has been written: the entries, and on an error the path at which the walk
      stopped. */
  method CompressGZIPFile(ctx: Context, src: SourceDisk, root: Path)
    returns (err: Option<CompressError>, stream: Option<seq<Token>>,
             ghost es: seq<Entry>, ghost stop: Path, ghost half: bool)
    requires src.Valid()
    modifies ctx, src
    ensures Framed(es)
    ensures stream == if old(ctx.left) == Some(0) then None else Some(Sealed(es))
    ensures err == Some(FileShrank) <==> Outstanding(es) > 0
    ensures err == Some(NoRoot) <==> stream.Some? && root !in src.worlds[0]
    ensures stream.Some? && root in src.worlds[0] ==> WalkWrote(src.worlds, root, [], es, err, stop, half)
    ensures stream.None? || root !in src.worlds[0] ==> es == []
    ensures stream.None? ==> err == Some(Canceled)
    ensures stream.Some? && root in src.worlds[0] ==>
              Polled(old(ctx.left), ctx.left, 1 + WentThrough([], es, err, stop), err)
    ensures err == Some(Canceled) ==> old(ctx.left).Some? && ctx.left == Some(0)
    ensures CanArchive(src.worlds[0], root) && err != Some(FileShrank) ==>
              (err.None? <==> Suffices(old(ctx.left), |Below(src.worlds[0].Keys, root)|))
    ensures err != Some(Canceled) && err != Some(FileShrank) ==> (err.None? <==> CanArchive(src.worlds[0], root))
    ensures Quiet(src.worlds, root) ==> err != Some(FileShrank)
    ensures Quiet(src.worlds, root) && err.None? ==> ArchiveOf(src.worlds[0], root, es)
  {
    es, stop, half, stream := [], [], false, None;
    var cancelled := ctx.Err();
    if cancelled { return Some(Canceled), None, [], [], false; }
    ghost var left := ctx.left;
    var tw := new TarWriter();
    err, stop, half := ArchiveTree(ctx, src, tw, root);
    es := tw.entries;
    tw.Close();
    stream := Some(tw.out);
    RunMeans(src.worlds, root, es, err, stop, half);
    if root in src.worlds[0] {
      PolledTogether(old(ctx.left), left, ctx.left, 1, WentThrough([], es, err, stop), err);
      CancelledWhen(src.worlds, root, es, err, stop, half, old(ctx.left), ctx.left);
    }
  }

  /** A context that is alive for one poll on entry, one for the root and one for each of the n
      objects below it. */
  predicate Suffices(left: Option<nat>, n: nat)
  {
    left.None? || left.value >= n + 2
  }

  /** A run without another reason to stop is cancelled exactly when the polls do not suffice. */
  lemma {:induction false} CancelledWhen(worlds: seq<Nodes>, root: Path, es: seq<Entry>, err: Option<CompressError>,
                                         stop: Path, half: bool, before: Option<nat>, after: Option<nat>)
    requires worlds != [] && root in worlds[0] && WalkWrote(worlds, root, [], es, err, stop, half)
    requires Polled(before, after, 1 + WentThrough([], es, err, stop), err)
    ensures err.None? || err == Some(Canceled) ==>
              (err.None? <==> Suffices(before, |Below(worlds[0].Keys, root)|))
  {
    var all := Below(worlds[0].Keys, root);
    WholePart(worlds[0].Keys, root);
    if err.None? {
      EnumerationSize(PathsOf(es), all);
    } else if err == Some(Canceled) {
      EnumerationSize(PathsOf(es), UpTo(all, stop, half));
      SizeUpTo(all, stop);
      BelowMember(worlds[0].Keys, root, stop);
    }
  }

  /** Up to one of its members a set has fewer members. */
  lemma {:induction false} SizeUpTo(s: set<Path>, stop: Path)
    ensures |UpTo(s, stop, false)| <= |s| && (stop in s ==> |UpTo(s, stop, false)| < |s|)
  {
    var part := UpTo(s, stop, false);
    BeforeIrreflexive(stop);
    FewerMembers(part, s);
    if stop in s { FewerMembers(part, s - {stop}); }
  }

  lemma FewerMembers(a: set<Path>, b: set<Path>)
    requires a <= b
    ensures |a| <= |b|
  {
    assert a + (b - a) == b;
  }

  /** What the outcome of a run says about the tree. */
  lemma {:induction false} RunMeans(worlds: seq<Nodes>, root: Path, es: seq<Entry>, err: Option<CompressError>,
                                    stop: Path, half: bool)
    requires worlds != [] && Framed(es) && (err == Some(FileShrank) <==> Outstanding(es) > 0)
    requires if root in worlds[0] then WalkWrote(worlds, root, [], es, err, stop, half) else err == Some(NoRoot)
    ensures err != Some(Canceled) && err != Some(FileShrank) ==> (err.None? <==> CanArchive(worlds[0], root))
    ensures Quiet(worlds, root) ==> err != Some(FileShrank)
    ensures Quiet(worlds, root) && err.None? ==> ArchiveOf(worlds[0], root, es)
  {
    NothingOutstanding(es);
    if root in worlds[0] {
      if err.None? {
        SuccessVisitsAll(worlds, root, es, stop, half);
        if Quiet(worlds, root) { QuietRun(worlds, root, es, stop, half); }
      } else {
        WhyRunFails(worlds, root, es, err.value, stop, half);
      }
    }
  }
}
