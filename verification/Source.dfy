/** The directory tree being archived, as other processes see it too: its shape is fixed, the
    bytes of its regular files may change at any moment. */
module Source {
  import opened Options
  import opened Filepath
  import opened Disk
  import opened Order
  import opened Archive

  /** Successive states of a file system in which only the bytes of regular files change. */
  ghost predicate Timeline(worlds: seq<Nodes>)
  {
    && worlds != [] && Tree(worlds[0])
    && forall t :: 0 <= t < |worlds| ==> SameShape(worlds[0], worlds[t])
  }

  /** The file system being archived. `Tick` is a moment in which other processes may run; the
      states they lead through are `worlds`, in which a state may repeat. */
  class SourceDisk {
    const worlds: seq<Nodes>
    var now: nat

    ghost predicate Valid()
      reads this
    {
      Timeline(worlds) && now < |worlds|
    }

    constructor (states: seq<Nodes>)
      requires Timeline(states)
      ensures Valid() && worlds == states && now == 0
    {
      worlds, now := states, 0;
    }

    function Nodes(): Nodes
      requires Valid()
      reads this
    {
      worlds[now]
    }

    method Tick()
      requires Valid()
      modifies this
      ensures Valid() && now == if old(now) + 1 < |worlds| then old(now) + 1 else old(now)
    {
      if now + 1 < |worlds| { now := now + 1; }
    }

    /** os.ReadDir: the names in a directory, in ascending order whatever order they come in. */
    method ReadDir(dir: Path) returns (names: seq<string>)
      requires Valid()
      ensures NamesAscend(names)
      ensures forall n :: n in names <==> dir + [n] in worlds[0].Keys
    {
      var rest := ListedIn(Nodes().Keys, dir);
      ghost var all := rest;
      names := [];
      while rest != {}
        invariant NamesAscend(names)
        invariant rest <= all && forall n :: n in names <==> n in all && n !in rest
        decreases rest
      {
        var n :| n in rest;
        names := InsertName(names, n);
        rest := rest - {n};
      }
      forall n
        ensures n in all <==> dir + [n] in worlds[0].Keys
      {
        ListedMember(worlds[now].Keys, dir, n);
        assert SameShape(worlds[0], worlds[now]);
      }
    }

    /** open(2), some time later. It fails only for what cannot be archived; a file opens itself. */
    method Open(path: Path) returns (handle: Option<Path>)
      requires Valid() && path in worlds[0]
      modifies this
      ensures Valid() && old(now) <= now
      ensures handle == OpenTarget(worlds[0], path)
      ensures handle.None? ==> !Archivable(worlds[0], path)
      ensures handle.Some? && worlds[0][path].File? ==> handle.value == path
    {
      Tick();
      handle := OpenTarget(Nodes(), path);
      ShapeResolves(worlds, now, path);
      if handle.None? { OpenRefused(worlds, now, path); }
      if worlds[0][path].File? { OpensItself(worlds, now, path); }
    }

    /** read(2) at an offset, some time later. */
    method Read(loc: Path, offset: nat, limit: nat) returns (chunk: seq<Byte>)
      requires Valid()
      modifies this
      ensures Valid() && old(now) <= now
      ensures chunk == Slice(worlds[now], loc, offset, limit)
    {
      Tick();
      chunk := Slice(Nodes(), loc, offset, limit);
    }
  }

  /** The last names of the objects in a directory. */
  function ListedIn(keys: set<Path>, dir: Path): set<string>
  {
    set q | q in keys && q != [] && Parent(q) == dir :: Last(q)
  }

  lemma ListedMember(keys: set<Path>, dir: Path, n: string)
    ensures n in ListedIn(keys, dir) <==> dir + [n] in keys
  {
    var p := dir + [n];
    assert Last(p) == n && Parent(p) == dir;
    if n in ListedIn(keys, dir) {
      var q :| q in keys && q != [] && Parent(q) == dir && Last(q) == n;
      assert q == p;
    }
  }

  /** Up to `limit` bytes of a regular file from an offset; nothing beyond its end. */
  function Slice(fs: Nodes, loc: Path, offset: nat, limit: nat): seq<Byte>
  {
    if loc !in fs || !fs[loc].File? || |fs[loc].bytes| <= offset then []
    else if |fs[loc].bytes| <= offset + limit then fs[loc].bytes[offset..]
    else fs[loc].bytes[offset..offset + limit]
  }

  function BytesAt(fs: Nodes, loc: Path): seq<Byte>
  {
    if loc in fs && fs[loc].File? then fs[loc].bytes else []
  }

  /** Byte `i` of the body is what the file held at offset `i` in some state from `t` on. */
  ghost predicate ByteSeen(worlds: seq<Nodes>, t: nat, loc: Path, i: nat, b: Byte)
  {
    exists u :: t <= u < |worlds| && i < |BytesAt(worlds[u], loc)| && BytesAt(worlds[u], loc)[i] == b
  }

  ghost predicate BodySeen(worlds: seq<Nodes>, t: nat, loc: Path, body: seq<Byte>)
  {
    forall i :: 0 <= i < |body| ==> ByteSeen(worlds, t, loc, i, body[i])
  }

  /** The body was read, byte by byte, after a state `t` in which the file had the announced size. */
  ghost predicate CopiedSince(worlds: seq<Nodes>, t: nat, loc: Path, size: nat, body: seq<Byte>)
  {
    t < |worlds| && |BytesAt(worlds[t], loc)| == size && BodySeen(worlds, t, loc, body)
  }

  /** A chunk read where the body ends continues the body. */
  lemma {:induction false} BodySeenMore(worlds: seq<Nodes>, t: nat, u: nat, loc: Path,
                                        body: seq<Byte>, limit: nat)
    requires BodySeen(worlds, t, loc, body) && t <= u < |worlds|
    ensures BodySeen(worlds, t, loc, body + Slice(worlds[u], loc, |body|, limit))
  {
    var chunk := Slice(worlds[u], loc, |body|, limit);
    forall i | 0 <= i < |body + chunk|
      ensures ByteSeen(worlds, t, loc, i, (body + chunk)[i])
    {
      if i < |body| {
        assert ByteSeen(worlds, t, loc, i, body[i]);
      } else {
        assert BytesAt(worlds[u], loc)[i] == chunk[i - |body|];
      }
    }
  }

  /** Nobody changes the file, whatever happens to others. */
  ghost predicate Undisturbed(worlds: seq<Nodes>, loc: Path)
  {
    worlds != [] && forall u :: 0 <= u < |worlds| ==> BytesAt(worlds[u], loc) == BytesAt(worlds[0], loc)
  }

  /** A full copy of a file that nobody changes is the file. */
  lemma {:induction false} UndisturbedCopy(worlds: seq<Nodes>, t: nat, loc: Path, size: nat, body: seq<Byte>)
    requires Undisturbed(worlds, loc) && CopiedSince(worlds, t, loc, size, body) && |body| == size
    ensures body == BytesAt(worlds[0], loc)
  {
    var bytes := BytesAt(worlds[0], loc);
    assert |bytes| == size;
    forall i | 0 <= i < |body|
      ensures body[i] == bytes[i]
    {
      assert ByteSeen(worlds, t, loc, i, body[i]);
    }
  }

  /** In some state the file was shorter than announced. */
  ghost predicate ShorterThan(worlds: seq<Nodes>, loc: Path, size: nat)
  {
    exists u :: 0 <= u < |worlds| && |BytesAt(worlds[u], loc)| < size
  }

  /** In every state from `t` on the file is shorter than announced. */
  ghost predicate StaysShorter(worlds: seq<Nodes>, t: nat, loc: Path, size: nat)
  {
    forall u :: t <= u < |worlds| ==> |BytesAt(worlds[u], loc)| < size
  }

  /** No full body can be read from a file that stays shorter. */
  lemma {:induction false} NoFullBody(worlds: seq<Nodes>, t: nat, loc: Path, body: seq<Byte>)
    requires BodySeen(worlds, t, loc, body) && body != []
    ensures !StaysShorter(worlds, t, loc, |body|)
  {
    assert ByteSeen(worlds, t, loc, |body| - 1, body[|body| - 1]);
  }

  /** The file was shorter in some state than it was in state `t`. */
  ghost predicate HasShrunk(worlds: seq<Nodes>, loc: Path, t: nat)
  {
    t < |worlds| && ShorterThan(worlds, loc, |BytesAt(worlds[t], loc)|)
  }

  lemma {:induction false} LaterSeen(worlds: seq<Nodes>, t: nat, u: nat, loc: Path, body: seq<Byte>)
    requires BodySeen(worlds, u, loc, body) && t <= u
    ensures BodySeen(worlds, t, loc, body)
  {
    forall i | 0 <= i < |body|
      ensures ByteSeen(worlds, t, loc, i, body[i])
    {
      assert ByteSeen(worlds, u, loc, i, body[i]);
    }
  }

  lemma {:induction false} ShapeIsTree(worlds: seq<Nodes>, t: nat)
    requires Timeline(worlds) && t < |worlds|
    ensures Tree(worlds[t]) && Grows(worlds[0], worlds[t]) && Grows(worlds[t], worlds[0])
  {
    var a, b := worlds[0], worlds[t];
    assert SameShape(a, b);
    forall p | p in b && p != []
      ensures IsName(Last(p)) && IsDirectory(b, Parent(p))
    {
      assert p in a && IsDirectory(a, Parent(p));
    }
  }

  /** Resolution does not depend on the bytes of files. */
  lemma {:induction false} ShapeResolves(worlds: seq<Nodes>, t: nat, path: Path)
    requires Timeline(worlds) && t < |worlds|
    ensures EvalSymlinks(worlds[t], path) == EvalSymlinks(worlds[0], path)
    ensures OpenTarget(worlds[t], path) == OpenTarget(worlds[0], path)
  {
    var a, b := worlds[0], worlds[t];
    ShapeIsTree(worlds, t);
    if Walk(a, [], path, 0, EVAL_LINKS).Found? { WalkGrows(a, b, [], path, 0, EVAL_LINKS); }
    if Walk(b, [], path, 0, EVAL_LINKS).Found? { WalkGrows(b, a, [], path, 0, EVAL_LINKS); }
    if Resolve(a, path).Found? { WalkGrows(a, b, [], path, 0, KERNEL_LINKS); }
    if Resolve(b, path).Found? { WalkGrows(b, a, [], path, 0, KERNEL_LINKS); }
  }

  /** open(2) on what the walk has found: a file or directory opens itself. */
  lemma {:induction false} OpensItself(worlds: seq<Nodes>, t: nat, loc: Path)
    requires Timeline(worlds) && t < |worlds| && loc in worlds[0]
    requires worlds[0][loc].File? || worlds[0][loc].Dir?
    ensures OpenTarget(worlds[t], loc) == Some(loc)
  {
    ShapeResolves(worlds, t, loc);
    ResolvedIsFixed(worlds[0], loc, KERNEL_LINKS);
  }

  lemma {:induction false} OpenRefused(worlds: seq<Nodes>, t: nat, loc: Path)
    requires Timeline(worlds) && t < |worlds| && loc in worlds[0] && OpenTarget(worlds[t], loc).None?
    ensures !Archivable(worlds[0], loc)
  {
    ShapeResolves(worlds, t, loc);
    if worlds[0][loc].File? || worlds[0][loc].Dir? {
      OpensItself(worlds, t, loc);
    }
  }
}
