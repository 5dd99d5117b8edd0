/** A POSIX file system as a map from absolute locations to nodes: path resolution through
    symbolic links, and the system calls the archiver and the extractor make. */
module Disk {
  import opened Options
  import opened Text
  import opened Filepath

  type Byte = bv8
  type Mode = bv9

  /** `Other` is a device, pipe or socket; `opens` says whether open(2) succeeds on it. */
  datatype Node =
    | Dir(mode: Mode)
    | File(mode: Mode, bytes: seq<Byte>)
    | Link(text: string)
    | Other(opens: bool)

  type Nodes = map<Path, Node>

  datatype Errno = ENOENT | ENOTDIR | ELOOP | EISDIR | EEXIST | ENXIO

  /** The file system is a tree: everything but "/" lives in a directory that is there. */
  ghost predicate Tree(fs: Nodes)
  {
    && IsDirectory(fs, [])
    && forall p :: p in fs && p != [] ==> IsName(Last(p)) && IsDirectory(fs, Parent(p))
  }

  predicate IsDirectory(fs: Nodes, p: Path)
  {
    p in fs && fs[p].Dir?
  }

  // ---------------------------------------------------------------- resolution

  /** Where following a path ends: at an existing object, at a free name in an existing
      directory, or nowhere. `links` counts the symbolic links followed so far. */
  datatype Walked = Found(loc: Path, links: nat) | Absent(loc: Path) | Stuck(why: Errno)

  /** Links that Linux follows in one path, and links that Go's EvalSymlinks follows. */
  const KERNEL_LINKS: nat := 40
  const EVAL_LINKS: nat := 255

  /** Follows `todo` from the directory `done`, resolving every link on the way. */
  function Walk(fs: Nodes, done: Path, todo: seq<string>, links: nat, limit: nat): (w: Walked)
    requires links <= limit
    decreases limit - links, |todo|
  {
    if todo == [] then Found(done, links)
    else
      var c, rest := todo[0], todo[1..];
      if c == "" || c == "." then Walk(fs, done, rest, links, limit)
      else if c == ".." then Walk(fs, if done == [] then [] else Parent(done), rest, links, limit)
      else
        var p := done + [c];
        if p !in fs then if rest == [] then Absent(p) else Stuck(ENOENT)
        else match fs[p]
          case Dir(_) => Walk(fs, p, rest, links, limit)
          case Link(text) =>
            if links == limit then Stuck(ELOOP)
            else Walk(fs, if Rooted(text) then [] else done, Split(text, '/') + rest, links + 1, limit)
          case _ => if rest == [] then Found(p, links) else Stuck(ENOTDIR)
  }

  /** stat(2), open(2): the kernel's resolution of an absolute path, following a final link. */
  function Resolve(fs: Nodes, path: Path): Walked
  {
    Walk(fs, [], path, 0, KERNEL_LINKS)
  }

  /** Where a call that does not follow a final link works: the last name in the resolved
      parent directory. None when there is no such directory. */
  function Slot(fs: Nodes, path: Path): Option<Path>
    requires path != []
  {
    match Resolve(fs, Parent(path))
    case Found(dir, _) => if IsDirectory(fs, dir) then Some(dir + [Last(path)]) else None
    case _ => None
  }

  /** Why there is no such place. */
  function NoSlot(fs: Nodes, path: Path): Errno
    requires path != []
  {
    Blame(Resolve(fs, Parent(path)))
  }

  /** The error for a name below what does not lead to a directory. */
  function Blame(w: Walked): Errno
  {
    match w
    case Found(_, _) => ENOTDIR
    case Absent(_) => ENOENT
    case Stuck(why) => why
  }

  /** filepath.EvalSymlinks. */
  function EvalSymlinks(fs: Nodes, path: Path): Option<Path>
  {
    match Walk(fs, [], path, 0, EVAL_LINKS)
    case Found(loc, _) => Some(loc)
    case _ => None
  }

  /** open(2) for reading: the object that gets opened. */
  function OpenTarget(fs: Nodes, path: Path): Option<Path>
  {
    match Resolve(fs, path)
    case Found(loc, _) => if loc in fs && fs[loc] == Other(false) then None else Some(loc)
    case _ => None
  }

  // ---------------------------------------------------------------- changes

  datatype Change = Change(fs: Nodes, err: Option<Errno>)

  function Masked(mode: Mode, umask: Mode): Mode
  {
    mode & !umask
  }

  /** mkdir(2), with os.MkdirAll's tolerance for a directory that appeared meanwhile. */
  function Mkdir(fs: Nodes, path: Path, mode: Mode): Change
    requires path != []
  {
    match Slot(fs, path)
    case None => Change(fs, Some(NoSlot(fs, path)))
    case Some(loc) =>
      if loc !in fs then Change(fs[loc := Dir(mode)], None)
      else if fs[loc].Dir? then Change(fs, None)
      else Change(fs, Some(EEXIST))
  }

  /** os.MkdirAll; `mode` is the mode after the umask. */
  function MkdirAll(fs: Nodes, path: Path, mode: Mode): Change
    decreases |path|
  {
    match Resolve(fs, path)
    case Found(loc, _) => Change(fs, if IsDirectory(fs, loc) then None else Some(ENOTDIR))
    case _ =>
      if path == [] then Change(fs, None)
      else
        var up := MkdirAll(fs, Parent(path), mode);
        if up.err.Some? then up else Mkdir(up.fs, path, mode)
  }

  datatype Opened = Opened(fs: Nodes, loc: Path, err: Option<Errno>)

  /** os.OpenFile with O_CREATE|O_RDWR: an existing file is kept as it is, not truncated. */
  function OpenFile(fs: Nodes, path: Path, mode: Mode): Opened
  {
    match Resolve(fs, path)
    case Found(loc, _) =>
      if loc !in fs then Opened(fs, loc, Some(ENOENT))
      else (match fs[loc]
            case Dir(_) => Opened(fs, loc, Some(EISDIR))
            case Other(opens) => Opened(fs, loc, if opens then None else Some(ENXIO))
            case _ => Opened(fs, loc, None))
    case Absent(loc) => Opened(fs[loc := File(mode, [])], loc, None)
    case Stuck(why) => Opened(fs, [], Some(why))
  }

  /** Bytes written over the start of a file: what was beyond them stays. */
  function Overwrite(existing: seq<Byte>, data: seq<Byte>): seq<Byte>
  {
    data + if |data| <= |existing| then existing[|data|..] else []
  }

  /** write(2) from offset 0 into an opened object; only regular files keep the bytes. */
  function WriteOver(fs: Nodes, loc: Path, data: seq<Byte>): Nodes
  {
    if loc in fs && fs[loc].File? then fs[loc := fs[loc].(bytes := Overwrite(fs[loc].bytes, data))]
    else fs
  }

  /** symlink(2). */
  function Symlink(fs: Nodes, text: string, path: Path): Change
  {
    if text == "" then Change(fs, Some(ENOENT))
    else if path == [] then Change(fs, Some(EEXIST))
    else
      match Slot(fs, path)
      case None => Change(fs, Some(NoSlot(fs, path)))
      case Some(loc) =>
        if loc in fs then Change(fs, Some(EEXIST)) else Change(fs[loc := Link(text)], None)
  }

  /** mkdir(2) makes what is free, tolerates a directory, and refuses anything else. */
  lemma MkdirOutcome(fs: Nodes, path: Path, mode: Mode)
    requires path != [] && Slot(fs, path).Some?
    ensures var loc, c := Slot(fs, path).value, Mkdir(fs, path, mode);
            && (c.err.None? <==> IsDirectory(c.fs, loc))
            && (c.err.None? && loc !in fs ==> c.fs == fs[loc := Dir(mode)])
            && (loc in fs ==> c.fs == fs)
  {
  }

  // ---------------------------------------------------------------- laws of resolution

  /** In a tree, resolution ends at objects that exist and are no links, or at a free name in an
      existing directory. */
  lemma {:induction false} WalkEnds(fs: Nodes, done: Path, todo: seq<string>, links: nat, limit: nat)
    requires Tree(fs) && IsDirectory(fs, done) && links <= limit
    requires forall i :: 0 <= i < |todo| ==> '/' !in todo[i]
    ensures var w := Walk(fs, done, todo, links, limit);
            && (w.Found? ==> w.loc in fs && !fs[w.loc].Link? && links <= w.links <= limit)
            && (w.Absent? ==> w.loc !in fs && w.loc != [] && IsName(Last(w.loc))
                              && IsDirectory(fs, Parent(w.loc)))
    decreases limit - links, |todo|
  {
    if todo != [] {
      var c, rest := todo[0], todo[1..];
      var p := done + [c];
      if c == "" || c == "." {
        WalkEnds(fs, done, rest, links, limit);
      } else if c == ".." {
        WalkEnds(fs, if done == [] then [] else Parent(done), rest, links, limit);
      } else if p !in fs {
        assert Parent(p) == done;
      } else if fs[p].Dir? {
        WalkEnds(fs, p, rest, links, limit);
      } else if fs[p].Link? && links < limit {
        var text := fs[p].text;
        WalkEnds(fs, if Rooted(text) then [] else done, Split(text, '/') + rest, links + 1, limit);
      }
    }
  }

  /** Everything above an existing object is a directory. */
  lemma {:induction false} PrefixesAreDirectories(fs: Nodes, p: Path, k: nat)
    requires Tree(fs) && p in fs && k < |p|
    ensures IsDirectory(fs, p[..k])
    decreases |p|
  {
    if k < |p| - 1 {
      PrefixesAreDirectories(fs, Parent(p), k);
      assert Parent(p)[..k] == p[..k];
    } else {
      assert p[..k] == Parent(p);
    }
  }

  /** In a tree every location is made of names. */
  lemma {:induction false} LocationsAreNames(fs: Nodes, p: Path)
    requires Tree(fs) && p in fs
    ensures AllNames(p)
    decreases |p|
  {
    if p != [] {
      LocationsAreNames(fs, Parent(p));
      assert forall i :: 0 <= i < |p| - 1 ==> p[i] == Parent(p)[i];
    }
  }

  /** Names below a directory, with only directories on the way, are followed literally. */
  lemma {:induction false} WalkDown(fs: Nodes, dir: Path, p: Path, links: nat, limit: nat)
    requires links <= limit && p != [] && AllNames(p)
    requires forall i :: 0 < i < |p| ==> IsDirectory(fs, dir + p[..i])
    ensures var w := Walk(fs, dir, p, links, limit);
            && (dir + p !in fs ==> w == Absent(dir + p))
            && (dir + p in fs && !fs[dir + p].Link? ==> w == Found(dir + p, links))
    decreases |p|
  {
    var c, rest := p[0], p[1..];
    assert IsName(c);
    if rest == [] {
      assert p == [c];
    } else {
      assert p[..1] == [c];
      forall i | 0 < i < |rest|
        ensures IsDirectory(fs, dir + [c] + rest[..i])
      {
        assert dir + [c] + rest[..i] == dir + p[..i + 1];
      }
      WalkDown(fs, dir + [c], rest, links, limit);
      assert dir + [c] + rest == dir + p;
    }
  }

  /** Through directories, a walk goes where the components say: up for "..", nowhere for "." and for
      empty ones. */
  lemma {:induction false} WalkAlong(fs: Nodes, done: Path, todo: seq<string>, k: nat, links: nat, limit: nat)
    requires links <= limit && AllNames(done) && k <= |todo|
    requires forall i :: 0 <= i < |todo| ==> '/' !in todo[i]
    requires forall i :: 0 <= i <= k ==> IsDirectory(fs, Squash(true, done, todo[..i]))
    ensures AllNames(Squash(true, done, todo[..k]))
    ensures Walk(fs, done, todo, links, limit)
         == Walk(fs, Squash(true, done, todo[..k]), todo[k..], links, limit)
    decreases k
  {
    if k == 0 {
      assert todo[..0] == [] && todo[0..] == todo;
    } else {
      var c, rest := todo[0], todo[1..];
      var next := Squash(true, done, [c]);
      SquashOne(done, c);
      assert todo[..1] == [c];
      forall i | 0 <= i < k
        ensures Squash(true, next, rest[..i]) == Squash(true, done, todo[..i + 1])
      {
        assert todo[..i + 1] == [c] + rest[..i];
        SquashAppend(true, done, [c], rest[..i]);
      }
      assert IsDirectory(fs, Squash(true, done, todo[..1]));
      WalkAlong(fs, next, rest, k - 1, links, limit);
      assert rest[k - 1..] == todo[k..];
      assert todo[..k] == [c] + rest[..k - 1];
      SquashAppend(true, done, [c], rest[..k - 1]);
    }
  }

  /** Where no link is on the way, resolution agrees with lexical processing. */
  lemma {:induction false} WalkIsLexical(fs: Nodes, done: Path, todo: seq<string>, links: nat, limit: nat)
    requires links <= limit && AllNames(done) && todo != []
    requires forall i :: 0 <= i < |todo| ==> '/' !in todo[i]
    requires forall i :: 0 <= i < |todo| ==> IsDirectory(fs, Squash(true, done, todo[..i]))
    ensures var end := Squash(true, done, todo);
            && (end in fs && !fs[end].Link? ==> Walk(fs, done, todo, links, limit) == Found(end, links))
            && (end !in fs && IsName(Last(todo)) ==> Walk(fs, done, todo, links, limit) == Absent(end))
  {
    var k := |todo| - 1;
    WalkAlong(fs, done, todo, k, links, limit);
    SquashAppend(true, done, todo[..k], [Last(todo)]);
    assert todo == todo[..k] + [Last(todo)] && todo[k..] == [Last(todo)];
  }

  /** A name in the middle of a path that is missing, or is no directory and no link, stops it. */
  lemma {:induction false} WalkIsStopped(fs: Nodes, done: Path, todo: seq<string>, k: nat, links: nat, limit: nat)
    requires links <= limit && AllNames(done) && k < |todo| - 1 && IsName(todo[k])
    requires forall i :: 0 <= i < |todo| ==> '/' !in todo[i]
    requires forall i :: 0 <= i <= k ==> IsDirectory(fs, Squash(true, done, todo[..i]))
    ensures var p := Squash(true, done, todo[..k]) + [todo[k]];
            && (p !in fs ==> Walk(fs, done, todo, links, limit) == Stuck(ENOENT))
            && (p in fs && !fs[p].Link? && !fs[p].Dir? ==> Walk(fs, done, todo, links, limit) == Stuck(ENOTDIR))
  {
    WalkAlong(fs, done, todo, k, links, limit);
  }

  /** Resolution is idempotent: a resolved location resolves to itself without any link. */
  lemma {:induction false} ResolvedIsFixed(fs: Nodes, p: Path, limit: nat)
    requires Tree(fs) && p in fs && !fs[p].Link?
    ensures Walk(fs, [], p, 0, limit) == Found(p, 0)
  {
    if p != [] {
      LocationsAreNames(fs, p);
      forall i | 0 < i < |p|
        ensures IsDirectory(fs, [] + p[..i])
      {
        PrefixesAreDirectories(fs, p, i);
        assert [] + p[..i] == p[..i];
      }
      WalkDown(fs, [], p, 0, limit);
      assert [] + p == p;
    }
  }

  /** A path that resolves to a directory can be resolved first and continued from there. */
  lemma {:induction false} WalkContinues(fs: Nodes, done: Path, a: seq<string>, b: seq<string>,
                                         links: nat, limit: nat)
    requires links <= limit
    requires var w := Walk(fs, done, a, links, limit); w.Found? && IsDirectory(fs, w.loc)
    ensures var w := Walk(fs, done, a, links, limit);
            w.links <= limit && Walk(fs, done, a + b, links, limit) == Walk(fs, w.loc, b, w.links, limit)
    decreases limit - links, |a|
  {
    if a == [] {
      assert a + b == b;
    } else {
      var c, rest := a[0], a[1..];
      var p := done + [c];
      assert (a + b)[0] == c && (a + b)[1..] == rest + b;
      if c == "" || c == "." {
        WalkContinues(fs, done, rest, b, links, limit);
      } else if c == ".." {
        WalkContinues(fs, if done == [] then [] else Parent(done), rest, b, links, limit);
      } else if fs[p].Dir? {
        WalkContinues(fs, p, rest, b, links, limit);
      } else if fs[p].Link? {
        var text := fs[p].text;
        var from := if Rooted(text) then [] else done;
        WalkContinues(fs, from, Split(text, '/') + rest, b, links + 1, limit);
        assert Split(text, '/') + rest + b == Split(text, '/') + (rest + b);
      }
    }
  }

  /** From a directory on, resolution is the walk down from it. */
  lemma {:induction false} ResolveFromDirectory(fs: Nodes, dir: Path, rest: seq<string>, limit: nat)
    requires Tree(fs) && IsDirectory(fs, dir)
    ensures Walk(fs, [], dir + rest, 0, limit) == Walk(fs, dir, rest, 0, limit)
  {
    ResolvedIsFixed(fs, dir, limit);
    WalkContinues(fs, [], dir, rest, 0, limit);
  }

  /** `later` has everything `earlier` has; only the bytes of regular files may differ. */
  ghost predicate Grows(earlier: Nodes, later: Nodes)
  {
    forall p :: p in earlier ==> p in later && SameKind(earlier[p], later[p])
  }

  predicate SameKind(a: Node, b: Node)
  {
    match a
    case File(mode, _) => b.File? && b.mode == mode
    case _ => a == b
  }

  /** The same objects, only the bytes of regular files may differ. */
  ghost predicate SameShape(a: Nodes, b: Nodes)
  {
    a.Keys == b.Keys && Grows(a, b)
  }

  /** What resolves keeps resolving to the same place while the file system grows. */
  lemma {:induction false} WalkGrows(a: Nodes, b: Nodes, done: Path, todo: seq<string>, links: nat, limit: nat)
    requires links <= limit && Grows(a, b)
    requires Walk(a, done, todo, links, limit).Found?
    ensures Walk(b, done, todo, links, limit) == Walk(a, done, todo, links, limit)
    decreases limit - links, |todo|
  {
    if todo != [] {
      var c, rest := todo[0], todo[1..];
      var p := done + [c];
      if c == "" || c == "." {
        WalkGrows(a, b, done, rest, links, limit);
      } else if c == ".." {
        WalkGrows(a, b, if done == [] then [] else Parent(done), rest, links, limit);
      } else if a[p].Dir? {
        WalkGrows(a, b, p, rest, links, limit);
      } else if a[p].Link? {
        var text := a[p].text;
        WalkGrows(a, b, if Rooted(text) then [] else done, Split(text, '/') + rest, links + 1, limit);
      }
    }
  }

  /** Raising the limit never changes a resolution that succeeded. */
  lemma {:induction false} WalkRaiseLimit(fs: Nodes, done: Path, todo: seq<string>, links: nat,
                                          low: nat, high: nat)
    requires links <= low <= high
    requires Walk(fs, done, todo, links, low).Found?
    ensures Walk(fs, done, todo, links, high) == Walk(fs, done, todo, links, low)
    decreases low - links, |todo|
  {
    if todo != [] {
      var c, rest := todo[0], todo[1..];
      var p := done + [c];
      if c == "" || c == "." {
        WalkRaiseLimit(fs, done, rest, links, low, high);
      } else if c == ".." {
        WalkRaiseLimit(fs, if done == [] then [] else Parent(done), rest, links, low, high);
      } else if fs[p].Dir? {
        WalkRaiseLimit(fs, p, rest, links, low, high);
      } else if fs[p].Link? {
        var text := fs[p].text;
        WalkRaiseLimit(fs, if Rooted(text) then [] else done, Split(text, '/') + rest, links + 1, low, high);
      }
    }
  }
}
