/** ExtractGZIPFileToDir: the loop that replays a tar stream onto a file system. */
module Extract {
  import opened Options
  import opened Contexts
  import opened Filepath
  import opened Disk
  import opened Tar
  import opened Replaying

  /** The file system being extracted to, changed in place by system calls. */
  class FileSystem {
    var nodes: Nodes
    const umask: Mode

    constructor (initial: Nodes, mask: Mode)
      ensures nodes == initial && umask == mask
    {
      nodes, umask := initial, mask;
    }

    method Mkdir(path: Path, mode: Mode) returns (err: Option<Errno>)
      requires path != []
      modifies this
      ensures Change(nodes, err) == Disk.Mkdir(old(nodes), path, Masked(mode, umask))
    {
      var slot := Slot(nodes, path);
      if slot.None? { return Some(NoSlot(nodes, path)); }
      if slot.value !in nodes {
        nodes := nodes[slot.value := Dir(Masked(mode, umask))];
        return None;
      }
      err := if nodes[slot.value].Dir? then None else Some(EEXIST);
    }

    /** Creates the parents first, then the directory itself. */
    method MkdirAll(path: Path, mode: Mode) returns (err: Option<Errno>)
      modifies this
      ensures Change(nodes, err) == Disk.MkdirAll(old(nodes), path, Masked(mode, umask))
      decreases |path|
    {
      var at := Resolve(nodes, path);
      if at.Found? {
        return if IsDirectory(nodes, at.loc) then None else Some(ENOTDIR);
      }
      if path == [] { return None; }
      err := MkdirAll(Parent(path), mode);
      if err.None? {
        err := Mkdir(path, mode);
      }
    }

    method OpenFile(path: Path, mode: Mode) returns (loc: Path, err: Option<Errno>)
      modifies this
      ensures Opened(nodes, loc, err) == Disk.OpenFile(old(nodes), path, Masked(mode, umask))
    {
      match Resolve(nodes, path) {
        case Found(at, _) =>
          loc := at;
          if at !in nodes {
            err := Some(ENOENT);
          } else if nodes[at].Dir? {
            err := Some(EISDIR);
          } else {
            err := if nodes[at] == Other(false) then Some(ENXIO) else None;
          }
        case Absent(at) =>
          nodes := nodes[at := File(Masked(mode, umask), [])];
          loc, err := at, None;
        case Stuck(why) =>
          loc, err := [], Some(why);
      }
    }

    method Write(loc: Path, data: seq<Byte>)
      modifies this
      ensures nodes == WriteOver(old(nodes), loc, data)
    {
      if loc in nodes && nodes[loc].File? {
        var existing := nodes[loc].bytes;
        nodes := nodes[loc := nodes[loc].(bytes := Overwrite(existing, data))];
      }
    }

    method Symlink(text: string, path: Path) returns (err: Option<Errno>)
      modifies this
      ensures Change(nodes, err) == Disk.Symlink(old(nodes), text, path)
    {
      if text == "" { return Some(ENOENT); }
      if path == [] { return Some(EEXIST); }
      var slot := Slot(nodes, path);
      if slot.None? { return Some(NoSlot(nodes, path)); }
      if slot.value in nodes { return Some(EEXIST); }
      nodes := nodes[slot.value := Link(text)];
      err := None;
    }
  }

  /** How many entries a context lets through: one poll is spent on entry, one before each entry,
      and one before the end is seen. */
  function Allowance(left: Option<nat>, n: nat): nat
  {
    if left.None? || left.value > n + 1 then n else if left.value == 0 then 0 else left.value - 1
  }

  /** Whether a context runs out before the end of n entries is seen. */
  predicate Interrupts(left: Option<nat>, n: nat)
  {
    left.Some? && left.value <= n + 1
  }

  /** What is left of a context after the poll on entry and k turns of the loop. */
  function LeftAfter(left: Option<nat>, k: nat): Option<nat>
  {
    if left.None? then None else Some(if left.value <= k + 1 then 0 else left.value - 1 - k)
  }

  /** The regular-file case: the body is written over what the file held before. */
  method ReplayFile(tr: TarReader, fs: FileSystem, target: Path, h: Header) returns (err: Option<ExtractError>)
    requires tr.Valid() && tr.taken > 0
    requires h == tr.entries[tr.taken - 1].h && tr.remaining == Payload(h) == h.size
    modifies tr, fs
    ensures tr.Valid() && tr.taken == old(tr.taken)
    ensures Replayed(fs.nodes, err)
         == MakeFile(old(fs.nodes), target, Masked(h.mode, fs.umask), tr.entries[tr.taken - 1].body, h.size)
  {
    var loc, e := fs.OpenFile(target, h.mode);
    if e.Some? { return Failure(e); }
    var data, short := tr.CopyN(h.size);
    fs.Write(loc, data);
    err := if short then Some(UnexpectedEof) else None;
  }

  method ReplayDirectory(fs: FileSystem, target: Path, h: Header) returns (err: Option<ExtractError>)
    modifies fs
    ensures Replayed(fs.nodes, err) == MakeDirectory(old(fs.nodes), target, Masked(h.mode, fs.umask))
  {
    var e := fs.MkdirAll(target, h.mode);
    err := Failure(e);
  }

  method ReplayLink(fs: FileSystem, target: Path, h: Header) returns (err: Option<ExtractError>)
    modifies fs
    ensures Replayed(fs.nodes, err) == MakeLink(old(fs.nodes), target, h.linkname)
  {
    var e := fs.Symlink(h.linkname, target);
    err := Failure(e);
  }

  /** One turn of the loop: the switch on the type of an entry whose header has just been read. */
  method ReplayEntry(tr: TarReader, fs: FileSystem, target: Path, h: Header) returns (err: Option<ExtractError>)
    requires tr.Valid() && tr.taken > 0
    requires h == tr.entries[tr.taken - 1].h && tr.remaining == Payload(h)
    modifies tr, fs
    ensures tr.Valid() && tr.taken == old(tr.taken)
    ensures Replayed(fs.nodes, err) == StepAt(old(fs.nodes), target, fs.umask, tr.entries[tr.taken - 1])
  {
    match h.flag {
      case TypeDir =>
        err := ReplayDirectory(fs, target, h);
      case TypeReg =>
        err := ReplayFile(tr, fs, target, h);
      case TypeSymlink =>
        err := ReplayLink(fs, target, h);
      case TypeOther =>
        err := Some(NotSupported);
    }
  }

  lemma {:induction false} ReplaySnoc(fs: Nodes, dst: Path, umask: Mode, es: seq<Entry>, k: nat)
    requires k < |es| && Replay(fs, dst, umask, es[..k]).err.None?
    ensures Replay(fs, dst, umask, es[..k + 1]) == Step(Replay(fs, dst, umask, es[..k]).fs, dst, umask, es[k])
  {
    var part := es[..k + 1];
    assert part[..k] == es[..k] && part[k] == es[k];
  }

  /** An entry is replayed without an error only if its body is complete. */
  lemma {:induction false} StepNeedsBody(fs: Nodes, dst: Path, umask: Mode, e: Entry)
    requires |e.body| <= Payload(e.h)
    ensures Step(fs, dst, umask, e).err.None? ==> Complete(e)
  {
  }

  /** One turn of the loop: the next header, its target, and the switch. `done` is the end of the
      archive. */
  method ReplayNext(tr: TarReader, fs: FileSystem, dst: Path) returns (done: bool, err: Option<ExtractError>)
    requires tr.Valid() && (tr.taken > 0 ==> Complete(tr.entries[tr.taken - 1]))
    modifies tr, fs
    ensures tr.Valid() && tr.taken == old(tr.taken) + if done then 0 else 1
    ensures done <==> old(tr.taken) == |tr.entries|
    ensures if done then Replayed(fs.nodes, err) == Replayed(old(fs.nodes), None)
            else Replayed(fs.nodes, err) == Step(old(fs.nodes), dst, fs.umask, tr.entries[old(tr.taken)])
  {
    ghost var prev, k := fs.nodes, tr.taken;
    assert k == |tr.entries| ==> Outstanding(tr.entries) == 0;
    var next := tr.Next();
    assert fs.nodes == prev;
    if next.EndOfArchive? {
      return true, None;
    }
    done := false;
    assert next.h == tr.entries[k].h && tr.taken == k + 1;
    var target := Components(JoinPaths(Absolute(dst), Clean(next.h.name)));
    err := ReplayEntry(tr, fs, target, next.h);
  }

  /** Polling once per turn, the context is found cancelled exactly after the entries it allows. */
  lemma PollsLeft(left: Option<nat>, k: nat, n: nat)
    requires left != Some(0) && k <= Allowance(left, n)
    ensures PolledOnce(left) == LeftAfter(left, 0)
    ensures PolledOnce(LeftAfter(left, k)) == LeftAfter(left, k + 1)
    ensures LeftAfter(left, k) == Some(0) <==> k == Allowance(left, n) && Interrupts(left, n)
    ensures LeftAfter(left, k) != Some(0) ==> k < Allowance(left, n) || (k == n && !Interrupts(left, n))
  {
  }

  /** The outcome of an extraction: the replay of as many entries as the context lets through. */
  ghost predicate Extracted(before: Nodes, after: Nodes, dst: Path, umask: Mode, es: seq<Entry>,
                            left: Option<nat>, err: Option<ExtractError>)
  {
    var r := Replay(before, dst, umask, es[..Allowance(left, |es|)]);
    && after == r.fs
    && err == if r.err.None? && Interrupts(left, |es|) then Some(Canceled) else r.err
  }

  lemma {:induction false} StoppedEarly(before: Nodes, dst: Path, umask: Mode, es: seq<Entry>, left: Option<nat>,
                                        k: nat, r: Replayed)
    requires k <= Allowance(left, |es|) && Replay(before, dst, umask, es[..k]) == r && r.err.Some?
    ensures Extracted(before, r.fs, dst, umask, es, left, r.err)
  {
    var n := Allowance(left, |es|);
    assert es[..n][..k] == es[..k];
    ErrorSticks(before, dst, umask, es[..n], k);
  }

  /** One more entry replayed: the extraction goes on, or ends with the entry's error. */
  lemma {:induction false} TurnTaken(before: Nodes, dst: Path, umask: Mode, es: seq<Entry>, left: Option<nat>, k: nat,
                                     prev: Nodes, now: Replayed)
    requires Framed(es) && k < Allowance(left, |es|)
    requires Replay(before, dst, umask, es[..k]) == Replayed(prev, None)
    requires now == Step(prev, dst, umask, es[k])
    ensures if now.err.Some? then Extracted(before, now.fs, dst, umask, es, left, now.err)
            else Replay(before, dst, umask, es[..k + 1]) == now && Complete(es[k])
  {
    ReplaySnoc(before, dst, umask, es, k);
    if now.err.Some? {
      StoppedEarly(before, dst, umask, es, left, k + 1, now);
    } else {
      assert k < |es| - 1 ==> Complete(es[k]);
      StepNeedsBody(prev, dst, umask, es[k]);
    }
  }

  lemma {:induction false} StoppedWithoutError(before: Nodes, now: Nodes, dst: Path, umask: Mode, es: seq<Entry>,
                                               left: Option<nat>, k: nat)
    requires k == Allowance(left, |es|) && Replay(before, dst, umask, es[..k]) == Replayed(now, None)
    ensures Extracted(before, now, dst, umask, es, left, if Interrupts(left, |es|) then Some(Canceled) else None)
  {
  }

  /** Between two turns: everything read so far has been replayed without an error, and the context
      has been polled once per turn. */
  ghost predicate Underway(ctx: Context, tr: TarReader, fs: FileSystem, dst: Path, left: Option<nat>, before: Nodes)
    reads ctx, tr, fs
  {
    && tr.Valid() && tr.taken <= Allowance(left, |tr.entries|)
    && left != Some(0) && ctx.left == LeftAfter(left, tr.taken)
    && Replay(before, dst, fs.umask, tr.entries[..tr.taken]) == Replayed(fs.nodes, None)
    && (tr.taken > 0 ==> Complete(tr.entries[tr.taken - 1]))
  }

  /** One turn of the loop. */
  method Turn(ctx: Context, tr: TarReader, fs: FileSystem, dst: Path, ghost left: Option<nat>, ghost before: Nodes)
    returns (stop: bool, err: Option<ExtractError>)
    requires Underway(ctx, tr, fs, dst, left, before)
    modifies ctx, tr, fs
    ensures if stop then Extracted(before, fs.nodes, dst, fs.umask, tr.entries, left, err)
            else Underway(ctx, tr, fs, dst, left, before) && tr.taken == old(tr.taken) + 1
  {
    ghost var es, prev, k := tr.entries, fs.nodes, tr.taken;
    PollsLeft(left, k, |es|);
    var cancelled := ctx.Err();
    if cancelled {
      StoppedWithoutError(before, prev, dst, fs.umask, es, left, k);
      return true, Some(Canceled);
    }
    ghost var polls := ctx.left;
    stop, err := ReplayNext(tr, fs, dst);
    assert ctx.left == polls;
    if stop {
      StoppedWithoutError(before, prev, dst, fs.umask, es, left, k);
    } else {
      TurnTaken(before, dst, fs.umask, es, left, k, prev, Replayed(fs.nodes, err));
      stop := err.Some?;
    }
  }

  /** The whole extraction, for streams whose bodies are complete or, as a failed compression may
      leave it, whose last body is cut short, and for no stream at all. */
  method ExtractGZIPFileToDir(ctx: Context, stream: Option<seq<Token>>, fs: FileSystem, dst: Path,
                              ghost es: seq<Entry>)
    returns (err: Option<ExtractError>)
    requires stream.Some? ==> Holds(stream.value, es)
    modifies ctx, fs
    ensures stream.Some? ==> Extracted(old(fs.nodes), fs.nodes, dst, fs.umask, es, old(ctx.left), err)
    ensures stream.None? ==> fs.nodes == old(fs.nodes)
    ensures stream.None? ==> err == Some(if old(ctx.left) == Some(0) then Canceled else NoStream)
  {
    var cancelled := ctx.Err();
    if cancelled {
      return Some(Canceled);
    }
    if stream.None? {
      return Some(NoStream);
    }
    PollsLeft(old(ctx.left), 0, |es|);
    var tr := new TarReader(stream.value, es);
    err := ReplayAll(ctx, tr, fs, dst, old(ctx.left));
  }

  /** The loop over the entries. */
  method ReplayAll(ctx: Context, tr: TarReader, fs: FileSystem, dst: Path, ghost left: Option<nat>)
    returns (err: Option<ExtractError>)
    requires tr.taken == 0 && Underway(ctx, tr, fs, dst, left, fs.nodes)
    modifies ctx, tr, fs
    ensures Extracted(old(fs.nodes), fs.nodes, dst, fs.umask, tr.entries, left, err)
  {
    ghost var before := fs.nodes;
    err := None;
    var stop := false;
    while !stop
      invariant if stop then Extracted(before, fs.nodes, dst, fs.umask, tr.entries, left, err)
                else Underway(ctx, tr, fs, dst, left, before)
      decreases !stop, |tr.entries| - tr.taken
    {
      stop, err := Turn(ctx, tr, fs, dst, left, before);
    }
  }
}
