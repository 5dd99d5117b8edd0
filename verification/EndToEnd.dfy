/** The client's compression and the server's extraction put together. */
module EndToEnd {
  import opened Options
  import opened Contexts
  import opened Filepath
  import opened Disk
  import opened Tar
  import opened Order
  import opened Archive
  import opened Replaying
  import opened RoundTrips
  import opened Links
  import opened Generations
  import opened Source
  import opened Written
  import opened Compress
  import opened Extract
  import opened Destinations
  import opened WalkOrder

  /** Compresses the tree under `root`, if that is possible. */
  method Pack(tree: Nodes, root: Path) returns (packed: bool, stream: seq<Token>, ghost es: seq<Entry>)
    requires Tree(tree)
    ensures packed <==> CanArchive(tree, root)
    ensures packed ==> ArchiveOf(tree, root, es) && Holds(stream, es) && stream == Encode(es) + [End]
  {
    var worlds := [tree];
    assert SameShape(tree, tree);
    var src := new SourceDisk(worlds);
    var ctx := new Context(None);
    var err, left;
    ghost var stop, half;
    err, left, es, stop, half := CompressGZIPFile(ctx, src, root);
    packed, stream := err.None?, left.value;
    SealedHolds(es);
  }

  /** Extracts a stream, if there is one, to `dst`. */
  method Unpack(stream: Option<seq<Token>>, before: Nodes, dst: Path, umask: Mode, ghost es: seq<Entry>)
    returns (after: Nodes, err: Option<ExtractError>)
    requires stream.Some? ==> Holds(stream.value, es)
    ensures Replayed(after, err) ==
            if stream.Some? then Replay(before, dst, umask, es) else Replayed(before, Some(NoStream))
  {
    var fs := new FileSystem(before, umask);
    var ctx := new Context(None);
    err := ExtractGZIPFileToDir(ctx, stream, fs, dst, es);
    after := fs.nodes;
    assert es[..|es|] == es;
  }

  /** Every archivable tree arrives: packing it and unpacking it into an empty directory, which may
      be named through links, copies exactly what is below the root, without an error. */
  method Transfer(tree: Nodes, root: Path, before: Nodes, dst: Path, ghost top: Path, umask: Mode)
    returns (packed: bool, after: Nodes, err: Option<ExtractError>)
    requires Tree(tree) && Tree(before) && LeadsTo(before, dst, top) && EmptyDirectory(before, top)
    ensures packed <==> CanArchive(tree, root)
    ensures packed ==> err.None? && CopiedOnly(tree, root, Below(tree.Keys, root), before, after, top, umask)
    ensures packed ==> Tree(after) && Below(after.Keys, top) == Below(tree.Keys, root)
  {
    after, err := before, None;
    var stream;
    ghost var es;
    packed, stream, es := Pack(tree, root);
    if packed {
      after, err := Unpack(Some(stream), before, dst, umask, es);
      RoundTrip(tree, root, es, before, dst, top, umask);
    }
  }

  /** Whatever a compression leaves behind, under any cancellation and with files changing all the
      time, is extracted as far as it goes. The extraction reports an error if and only if a file
      shrank or nothing was written at all; every other stop stays unnoticed. */
  method Forward(ctx: Context, src: SourceDisk, root: Path, before: Nodes, dst: Path, ghost top: Path, umask: Mode)
    returns (err: Option<CompressError>, extracted: Option<ExtractError>, after: Nodes,
             ghost es: seq<Entry>, ghost stop: Path, ghost half: bool)
    requires src.Valid() && LeadsTo(before, dst, top) && EmptyDirectory(before, top)
    modifies ctx, src
    ensures extracted.None? <==> old(ctx.left) != Some(0) && err != Some(FileShrank)
    ensures old(ctx.left) == Some(0) || root !in src.worlds[0] ==> after == before
    ensures old(ctx.left) != Some(0) && root in src.worlds[0] ==>
              WalkWrote(src.worlds, root, [], es, err, stop, half) && Overlaid(before, after, top, umask, es)
    ensures old(ctx.left) != Some(0) && root in src.worlds[0] ==>
              var all := Below(src.worlds[0].Keys, root);
              Below(after.Keys, top) == if err.None? then all else UpTo(all, stop, half)
  {
    var stream;
    ghost var worlds := src.worlds;
    err, stream, es, stop, half := CompressGZIPFile(ctx, src, root);
    SealedHolds(es);
    after, extracted := Unpack(stream, before, dst, umask, es);
    if stream.Some? && root in worlds[0] {
      RunExtracts(worlds, root, es, err, stop, half, before, dst, top, umask);
    }
  }

  /** And it arrives in a state that packs the same way again, up to the umask, if and only if its
      links, supposed to lead inside, lie at the top. */
  method TransferTwice(tree: Nodes, root: Path, before: Nodes, top: Path, umask: Mode)
    returns (packed: bool, packedAgain: bool, first: seq<Token>, second: seq<Token>, ghost es: seq<Entry>)
    requires Tree(tree) && LinksStayInside(tree, root)
    requires Tree(before) && EmptyDirectory(before, top)
    ensures packed <==> CanArchive(tree, root)
    ensures packed ==> ArchiveOf(tree, root, es) && first == Encode(es) + [End]
    ensures packed ==>
              (packedAgain && second == Encode(MaskedAll(es, umask)) + [End] <==> LinksAtTop(tree, root))
  {
    packedAgain, second := false, [];
    packed, first, es := Pack(tree, root);
    if packed {
      ghost var es2;
      ExtractedCopy(tree, root, es, before, top, umask);
      var after, err := Unpack(Some(first), before, top, umask, es);
      packedAgain, second, es2 := Pack(after, top);
      PacksAgainIff(tree, root, es, before, top, umask, packedAgain, es2);
    }
  }

  /** The second stream is that of the masked entries exactly when links lie at the top. */
  lemma {:induction false} PacksAgainIff(tree: Nodes, root: Path, es: seq<Entry>, before: Nodes, top: Path, umask: Mode,
                                         again: bool, es2: seq<Entry>)
    requires Tree(tree) && ArchiveOf(tree, root, es) && LinksStayInside(tree, root)
    requires Tree(before) && EmptyDirectory(before, top)
    requires var after := Replay(before, top, umask, es).fs;
             (again <==> CanArchive(after, top)) && (again ==> ArchiveOf(after, top, es2))
    ensures again && Encode(es2) + [End] == Encode(MaskedAll(es, umask)) + [End] <==> LinksAtTop(tree, root)
  {
    var after, masked := Replay(before, top, umask, es).fs, MaskedAll(es, umask);
    ExtractedCopy(tree, root, es, before, top, umask);
    if LinksAtTop(tree, root) {
      SecondGeneration(tree, root, es, before, top, umask, es2);
      ArchivedIsArchivable(after, top, masked);
    } else if again && Encode(es2) + [End] == Encode(masked) + [End] {
      ArchiveIsComplete(tree, root, es);
      ArchiveIsComplete(after, top, es2);
      MaskedIsComplete(es, umask);
      OneReading(es2, masked, [End], [End]);
      SecondGenerationIff(tree, root, es, before, top, umask);
    }
  }

  lemma {:induction false} ArchiveIsComplete(fs: Nodes, root: Path, es: seq<Entry>)
    requires ArchiveOf(fs, root, es)
    ensures AllComplete(es)
  {
    forall i | 0 <= i < |es|
      ensures Complete(es[i])
    {
      assert Represents(fs, root, es[i]);
    }
  }

  lemma MaskedIsComplete(es: seq<Entry>, umask: Mode)
    requires AllComplete(es)
    ensures AllComplete(MaskedAll(es, umask))
  {
    forall i | 0 <= i < |es|
      ensures Complete(MaskedEntry(es[i], umask))
    {
      assert Complete(es[i]);
    }
  }

  /** A tree that has an archive can be archived, provided its root is a directory. */
  lemma {:induction false} ArchivedIsArchivable(fs: Nodes, root: Path, es: seq<Entry>)
    requires ArchiveOf(fs, root, es) && IsDirectory(fs, root)
    ensures CanArchive(fs, root)
  {
    forall q | q == [] || q in Below(fs.Keys, root)
      ensures root + q in fs && Visitable(fs, root, q)
    {
      if q == [] {
        assert root + q == root;
      } else {
        assert q in PathsOf(es);
        var i :| 0 <= i < |es| && PathsOf(es)[i] == q;
        assert Represents(fs, root, es[i]);
      }
    }
  }
  /** And a tree that can be archived has an archive. */
  lemma {:induction false} ArchiveExistsIff(fs: Nodes, root: Path)
    requires Tree(fs) && IsDirectory(fs, root)
    ensures CanArchive(fs, root) <==> exists es :: ArchiveOf(fs, root, es)
  {
    if exists es :: ArchiveOf(fs, root, es) {
      var es :| ArchiveOf(fs, root, es);
      ArchivedIsArchivable(fs, root, es);
    }
    if CanArchive(fs, root) {
      var ps := EnumerationExists(Below(fs.Keys, root));
      forall i | 0 <= i < |ps|
        ensures ps[i] != [] && root + ps[i] in fs && Archivable(fs, root + ps[i])
        ensures PathOf(EntryFor(fs, root, ps[i])) == ps[i]
      {
        BelowMember(fs.Keys, root, ps[i]);
        assert Visitable(fs, root, ps[i]);
        EntryPath(fs, root, ps[i]);
      }
      var es := seq(|ps|, i requires 0 <= i < |ps| => EntryFor(fs, root, ps[i]));
      assert PathsOf(es) == ps;
      assert ArchiveOf(fs, root, es);
    }
  }

  // ---------------------------------------------------------------- a tree with a deeper link

  /** A directory with a file and a link to it. */
  function DeepTree(d: string, f: string, n: string): Nodes
  {
    map[[] := Dir(0x1ED), [d] := Dir(0x1ED), [d, f] := File(0x1A4, []), [d, n] := Link(f)]
  }

  lemma {:induction false} DeepTreeIsTree(d: string, f: string, n: string)
    requires IsName(d) && IsName(f) && IsName(n) && f != n
    ensures Tree(DeepTree(d, f, n))
  {
    var fs := DeepTree(d, f, n);
    assert IsDirectory(fs, []) && IsDirectory(fs, [d]);
    forall q | q in fs && q != []
      ensures IsName(Last(q)) && IsDirectory(fs, Parent(q))
    {
      assert Parent([d]) == [] && Parent([d, f]) == [d] && Parent([d, n]) == [d];
    }
  }

  /** Such a tree can be archived, its link leads inside, and it does not lie at the top. */
  lemma {:induction false} DeepTreeExists(d: string, f: string, n: string)
    requires IsName(d) && IsName(f) && IsName(n) && f != n
    ensures var fs := DeepTree(d, f, n);
            && Tree(fs) && CanArchive(fs, []) && LinksStayInside(fs, []) && !LinksAtTop(fs, [])
            && EvalSymlinks(fs, [d, n]) == Some([d, f])
  {
    var fs := DeepTree(d, f, n);
    DeepTreeIsTree(d, f, n);
    DeepLinkLeads(d, f, n);
    forall q | q == [] || q in Below(fs.Keys, [])
      ensures [] + q in fs && Visitable(fs, [], q)
    {
      BelowMember(fs.Keys, [], q);
      assert [] + q == q;
    }
    forall p | p in Below(fs.Keys, []) && [] + p in fs && fs[[] + p].Link?
      ensures [] + p == [d, n]
    {
    }
    BelowMember(fs.Keys, [], [d, n]);
    assert [] + [d, n] == [d, n];
  }

  lemma {:induction false} DeepLinkLeads(d: string, f: string, n: string)
    requires IsName(d) && IsName(f) && IsName(n) && f != n
    ensures var fs := DeepTree(d, f, n);
            EvalSymlinks(fs, [d, n]) == Some([d, f]) && Archivable(fs, [d, n])
  {
    var fs := DeepTree(d, f, n);
    DeepTreeIsTree(d, f, n);
    assert [d] + [n] == [d, n] && [d] + [f] == [d, f] && LocalText([f]) == f;
    FollowLocalText(fs, [d], n, [f], EVAL_LINKS);
    FollowLocalText(fs, [d], n, [f], KERNEL_LINKS);
  }
}
