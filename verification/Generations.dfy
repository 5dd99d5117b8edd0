/** Archiving what was extracted, any number of times, and extracting over what was extracted before. */
module Generations {
  import opened Options
  import opened Filepath
  import opened Disk
  import opened Tar
  import opened Archive
  import opened Replaying
  import opened RoundTrips
  import opened Links
  import opened DeepLinks

  // ---------------------------------------------------------------- the second generation

  /** The entry with the permission bits an extraction leaves. */
  function MaskedEntry(e: Entry, umask: Mode): Entry
  {
    if e.h.flag.TypeSymlink? then e else e.(h := e.h.(mode := Masked(e.h.mode, umask)))
  }

  function MaskedAll(es: seq<Entry>, umask: Mode): (r: seq<Entry>)
    ensures |r| == |es|
    ensures forall i :: 0 <= i < |es| ==> r[i] == MaskedEntry(es[i], umask)
  {
    seq(|es|, i requires 0 <= i < |es| => MaskedEntry(es[i], umask))
  }

  /** The umask takes bits away and nothing else, and taking them away again changes nothing. */
  lemma MaskTwice(mode: Mode, umask: Mode)
    ensures Masked(mode, umask) & umask == 0 && Masked(mode, umask) | (mode & umask) == mode
    ensures Masked(Masked(mode, umask), umask) == Masked(mode, umask)
  {
  }

  /** The extracted copy of a file or directory is archived as before, up to the umask. */
  lemma {:induction false} PlainRegenerates(src: Nodes, root: Path, p: Path, after: Nodes, top: Path, umask: Mode)
    requires root + p in src && !src[root + p].Link? && !src[root + p].Other?
    requires top + p in after && after[top + p] == CopyOf(src, root, p, umask)
    ensures EntryFor(after, top, p) == MaskedEntry(EntryFor(src, root, p), umask)
    ensures Archivable(after, top + p)
  {
  }

  /** The extracted copy of a link at the top is archived as before. */
  lemma {:induction false} LinkRegenerates(src: Nodes, root: Path, n: string,
                                           before: Nodes, after: Nodes, top: Path, umask: Mode)
    requires Tree(src) && LinksStayInside(src, root) && root + [n] in src && src[root + [n]].Link?
    requires Archivable(src, root + [n])
    requires CopiedOnly(src, root, Below(src.Keys, root), before, after, top, umask)
    requires Tree(after) && IsDirectory(after, top)
    ensures top + [n] in after && Archivable(after, top + [n])
    ensures EntryFor(after, top, [n]) == EntryFor(src, root, [n])
  {
    var t := Destination(src, root, [n]);
    InsideLink(src, root, [n]);
    TopLinkKeepsMeaning(src, root, n, before, after, top, umask);
    LocationsAreNames(after, top);
    RelInside(top, t);
    DestinationIsOpen(src, root, n);
    CopyOpens(src, root, t, before, after, top, umask);
    OpensAt(after, top + [n], top + t);
  }

  /** What opens, opens where EvalSymlinks leads. */
  lemma {:induction false} OpensWhereItLeads(fs: Nodes, path: Path)
    requires OpenTarget(fs, path).Some?
    ensures EvalSymlinks(fs, path) == OpenTarget(fs, path)
    ensures OpenTarget(fs, path).value in fs ==> fs[OpenTarget(fs, path).value] != Other(false)
  {
    WalkRaiseLimit(fs, [], path, 0, KERNEL_LINKS, EVAL_LINKS);
  }

  /** The copy of what opens, opens. */
  lemma {:induction false} CopyOpens(src: Nodes, root: Path, t: Path,
                                     before: Nodes, after: Nodes, top: Path, umask: Mode)
    requires root + t in src && src[root + t] != Other(false) && IsDirectory(after, top)
    requires CopiedOnly(src, root, Below(src.Keys, root), before, after, top, umask)
    ensures top + t in after && after[top + t] != Other(false)
  {
    if t == [] {
      assert top + t == top;
    } else {
      BelowMember(src.Keys, root, t);
    }
  }

  lemma {:induction false} DestinationIsOpen(src: Nodes, root: Path, n: string)
    requires Tree(src) && LinksStayInside(src, root) && root + [n] in src && src[root + [n]].Link?
    requires OpenTarget(src, root + [n]).Some?
    ensures [n] in Below(src.Keys, root)
    ensures var t := Destination(src, root, [n]); root + t in src && src[root + t] != Other(false)
  {
    InsideLink(src, root, [n]);
    OpensWhereItLeads(src, root + [n]);
  }

  lemma {:induction false} OpensAt(fs: Nodes, path: Path, loc: Path)
    requires Resolve(fs, path) == Found(loc, 1) && loc in fs && fs[loc] != Other(false)
    ensures OpenTarget(fs, path) == Some(loc)
  {
  }

  lemma {:induction false} EntryRegenerates(src: Nodes, root: Path, e: Entry,
                                            before: Nodes, after: Nodes, top: Path, umask: Mode)
    requires Tree(src) && LinksStayInside(src, root) && LinksAtTop(src, root) && Represents(src, root, e)
    requires CopiedOnly(src, root, Below(src.Keys, root), before, after, top, umask)
    requires Tree(after) && IsDirectory(after, top)
    ensures Represents(after, top, MaskedEntry(e, umask))
  {
    var p := PathOf(e);
    BelowMember(src.Keys, root, p);
    if src[root + p].Link? {
      assert p == [p[0]];
      LinkRegenerates(src, root, p[0], before, after, top, umask);
    } else {
      PlainRegenerates(src, root, p, after, top, umask);
    }
  }

  /** An archive extracted into an empty directory, given by its location. */
  lemma {:induction false} ExtractedCopy(src: Nodes, root: Path, es: seq<Entry>, before: Nodes, top: Path, umask: Mode)
    requires Tree(src) && ArchiveOf(src, root, es) && Tree(before) && EmptyDirectory(before, top)
    ensures LeadsTo(before, top, top)
    ensures var after := Replay(before, top, umask, es).fs;
            && CopiedOnly(src, root, Below(src.Keys, root), before, after, top, umask)
            && Below(after.Keys, top) == Below(src.Keys, root)
            && Tree(after) && IsDirectory(after, top)
  {
    LocationsAreNames(before, top);
    ResolvedIsFixed(before, top, KERNEL_LINKS);
    RoundTrip(src, root, es, before, top, top, umask);
  }

  lemma {:induction false} ArchiveRegenerates(src: Nodes, root: Path, es: seq<Entry>,
                                              before: Nodes, after: Nodes, top: Path, umask: Mode)
    requires Tree(src) && ArchiveOf(src, root, es) && LinksStayInside(src, root) && LinksAtTop(src, root)
    requires CopiedOnly(src, root, Below(src.Keys, root), before, after, top, umask)
    requires Below(after.Keys, top) == Below(src.Keys, root) && Tree(after) && IsDirectory(after, top)
    ensures ArchiveOf(after, top, MaskedAll(es, umask))
  {
    var again := MaskedAll(es, umask);
    assert PathsOf(again) == PathsOf(es);
    forall i | 0 <= i < |again|
      ensures Represents(after, top, again[i])
    {
      assert Represents(src, root, es[i]);
      EntryRegenerates(src, root, es[i], before, after, top, umask);
    }
  }

  /** The second generation is a fixed point: when links lie at the top and lead inside, archiving
      an extracted archive gives the same entries again: names, types, sizes, link texts, bodies,
      and modes up to the umask. */
  lemma {:induction false} SecondGeneration(src: Nodes, root: Path, es: seq<Entry>,
                                            before: Nodes, top: Path, umask: Mode, es2: seq<Entry>)
    requires Tree(src) && ArchiveOf(src, root, es)
    requires LinksStayInside(src, root) && LinksAtTop(src, root)
    requires Tree(before) && EmptyDirectory(before, top)
    ensures var after := Replay(before, top, umask, es).fs;
            && ArchiveOf(after, top, MaskedAll(es, umask))
            && (ArchiveOf(after, top, es2) ==> es2 == MaskedAll(es, umask))
  {
    ExtractedCopy(src, root, es, before, top, umask);
    var after := Replay(before, top, umask, es).fs;
    ArchiveRegenerates(src, root, es, before, after, top, umask);
    if ArchiveOf(after, top, es2) {
      ArchiveUnique(after, top, es2, MaskedAll(es, umask));
    }
  }

  lemma {:induction false} LocalTextInjective(t: Path, u: Path)
    requires AllNames(t) && AllNames(u) && LocalText(t) == LocalText(u)
    ensures t == u
  {
    TextComponents(t);
    TextComponents(u);
  }

  /** A link whose copy is archived with the same text has kept its meaning. */
  lemma {:induction false} SameTextSameMeaning(src: Nodes, root: Path, p: Path,
                                               before: Nodes, after: Nodes, top: Path, umask: Mode)
    requires Tree(src) && LinksStayInside(src, root) && |p| > 1 && IsLink(src, root, p)
    requires CopiedOnly(src, root, Below(src.Keys, root), before, after, top, umask)
    requires Tree(after) && IsDirectory(after, top) && top + p in after && after[top + p].Link?
    requires EvalSymlinks(after, top + p).Some?
    requires EntryFor(after, top, p).h.linkname == EntryFor(src, root, p).h.linkname
    ensures p in Below(src.Keys, root) && KeepsMeaning(src, root, p, after, top)
  {
    InsideLink(src, root, p);
    DeepLinkStaysHome(src, root, p, before, after, top, umask);
    var got := EvalSymlinks(after, top + p).value;
    StartsWith(top, Parent(p), got);
    LinkInto(after, top, p, got);
    LocalTextInjective(Destination(src, root, p), got[|top|..]);
  }

  /** A location under top/dir, seen from top. */
  lemma StartsWith(top: Path, dir: Path, q: Path)
    requires top + dir <= q
    ensures |top| <= |q| && top <= q && q == top + q[|top|..] && dir <= q[|top|..]
    ensures AllNames(q) ==> AllNames(top) && AllNames(q[|top|..])
  {
    assert q[..|top|] == (top + dir)[..|top|] == top;
    assert q[|top|..][..|dir|] == q[..|top + dir|][|top|..] == dir;
    assert forall i :: 0 <= i < |top| ==> top[i] == q[i];
    assert forall i :: 0 <= i < |q| - |top| ==> q[|top|..][i] == q[|top| + i];
  }

  /** When the extracted tree has the masked archive, its deeper links have kept their meaning. */
  lemma {:induction false} RegeneratedKeepsMeaning(src: Nodes, root: Path, es: seq<Entry>,
                                                   before: Nodes, after: Nodes, top: Path, umask: Mode, p: Path)
    requires Tree(src) && ArchiveOf(src, root, es) && LinksStayInside(src, root)
    requires CopiedOnly(src, root, Below(src.Keys, root), before, after, top, umask)
    requires Tree(after) && IsDirectory(after, top) && ArchiveOf(after, top, MaskedAll(es, umask))
    requires |p| > 1 && IsLink(src, root, p)
    ensures p in Below(src.Keys, root) && KeepsMeaning(src, root, p, after, top)
  {
    var again := MaskedAll(es, umask);
    BelowMember(src.Keys, root, p);
    assert p in PathsOf(es);
    var i :| 0 <= i < |es| && PathsOf(es)[i] == p;
    assert Represents(src, root, es[i]) && Represents(after, top, again[i]);
    assert after[top + p] == CopyOf(src, root, p, umask);
    SameTextSameMeaning(src, root, p, before, after, top, umask);
  }

  /** The condition on links is exact: when links lead inside the root, the second generation is the
      first one again if and only if they all lie at the top. */
  lemma {:induction false} SecondGenerationIff(src: Nodes, root: Path, es: seq<Entry>,
                                               before: Nodes, top: Path, umask: Mode)
    requires Tree(src) && ArchiveOf(src, root, es) && LinksStayInside(src, root)
    requires Tree(before) && EmptyDirectory(before, top)
    ensures ArchiveOf(Replay(before, top, umask, es).fs, top, MaskedAll(es, umask)) <==> LinksAtTop(src, root)
  {
    ExtractedCopy(src, root, es, before, top, umask);
    var after := Replay(before, top, umask, es).fs;
    if LinksAtTop(src, root) {
      SecondGeneration(src, root, es, before, top, umask, []);
    } else if ArchiveOf(after, top, MaskedAll(es, umask)) {
      forall p | p in Below(src.Keys, root) && IsLink(src, root, p) && |p| >= 2
        ensures KeepsMeaning(src, root, p, after, top)
      {
        RegeneratedKeepsMeaning(src, root, es, before, after, top, umask, p);
      }
      MeaningKeptIff(src, root, before, after, top, umask);
    }
  }

  // ---------------------------------------------------------------- later generations

  lemma MaskedAgain(es: seq<Entry>, umask: Mode)
    ensures MaskedAll(MaskedAll(es, umask), umask) == MaskedAll(es, umask)
  {
    var once := MaskedAll(es, umask);
    forall i | 0 <= i < |es|
      ensures MaskedEntry(once[i], umask) == once[i]
    {
      MaskTwice(es[i].h.mode, umask);
    }
  }

  /** A copied link at the top leads inside. */
  lemma {:induction false} CopiedLinkAtTop(src: Nodes, root: Path, p: Path,
                                           before: Nodes, after: Nodes, top: Path, umask: Mode)
    requires Tree(src) && LinksStayInside(src, root) && LinksAtTop(src, root)
    requires CopiedOnly(src, root, Below(src.Keys, root), before, after, top, umask)
    requires Tree(after) && IsDirectory(after, top)
    requires p in Below(after.Keys, top) && IsLink(after, top, p)
    ensures |p| == 1 && EvalSymlinks(after, top + p).Some? && top <= EvalSymlinks(after, top + p).value
  {
    BelowMember(after.Keys, top, p);
    CopiedLinkWasLink(src, root, p, before, after, top, umask);
    assert p == [p[0]];
    TopLinkKeepsMeaning(src, root, p[0], before, after, top, umask);
  }

  /** An extracted tree has its links at the top and leading inside if its source had. */
  lemma {:induction false} LinksStayGood(src: Nodes, root: Path, before: Nodes, after: Nodes, top: Path, umask: Mode)
    requires Tree(src) && LinksStayInside(src, root) && LinksAtTop(src, root)
    requires CopiedOnly(src, root, Below(src.Keys, root), before, after, top, umask)
    requires Tree(after) && IsDirectory(after, top)
    ensures LinksStayInside(after, top) && LinksAtTop(after, top)
  {
    forall p | p in Below(after.Keys, top) && IsLink(after, top, p)
      ensures |p| == 1 && EvalSymlinks(after, top + p).Some? && top <= EvalSymlinks(after, top + p).value
    {
      CopiedLinkAtTop(src, root, p, before, after, top, umask);
    }
  }

  /** The second archive is that of the first one's extraction into an empty directory. */
  ghost predicate Next(before: Nodes, top: Path, umask: Mode, es: seq<Entry>, es2: seq<Entry>)
  {
    && Tree(before) && EmptyDirectory(before, top)
    && ArchiveOf(Replay(before, top, umask, es).fs, top, es2)
  }

  /** Generations: each archive is extracted into an empty directory of some file system, and the
      next archive is that of what was extracted there. */
  ghost predicate Lineage(befores: seq<Nodes>, tops: seq<Path>, umask: Mode, archives: seq<seq<Entry>>)
  {
    && |tops| == |befores| && |archives| == |befores| + 1
    && forall i :: 0 <= i < |befores| ==> Next(befores[i], tops[i], umask, archives[i], archives[i + 1])
  }

  lemma {:induction false} NextGeneration(src: Nodes, root: Path, before: Nodes, top: Path, umask: Mode,
                                          es: seq<Entry>, es2: seq<Entry>) returns (after: Nodes)
    requires Tree(src) && LinksStayInside(src, root) && LinksAtTop(src, root) && ArchiveOf(src, root, es)
    requires Next(before, top, umask, es, es2)
    ensures es2 == MaskedAll(es, umask) && MaskedAll(es2, umask) == es2
    ensures Tree(after) && LinksStayInside(after, top) && LinksAtTop(after, top) && ArchiveOf(after, top, es2)
  {
    after := Replay(before, top, umask, es).fs;
    ExtractedCopy(src, root, es, before, top, umask);
    SecondGeneration(src, root, es, before, top, umask, es2);
    LinksStayGood(src, root, before, after, top, umask);
    MaskedAgain(es, umask);
  }

  /** However many generations follow and wherever they are extracted, every archive after the first
      is the same one: the first without the bits of the umask. */
  lemma {:induction false} LaterGenerations(src: Nodes, root: Path, befores: seq<Nodes>, tops: seq<Path>, umask: Mode,
                                            archives: seq<seq<Entry>>, i: nat)
    requires Tree(src) && LinksStayInside(src, root) && LinksAtTop(src, root)
    requires Lineage(befores, tops, umask, archives) && ArchiveOf(src, root, archives[0])
    requires 1 <= i < |archives|
    ensures archives[i] == MaskedAll(archives[0], umask)
    decreases i
  {
    assert Next(befores[0], tops[0], umask, archives[0], archives[1]);
    var after := NextGeneration(src, root, befores[0], tops[0], umask, archives[0], archives[1]);
    if i > 1 {
      assert Lineage(befores[1..], tops[1..], umask, archives[1..]);
      LaterGenerations(after, tops[0], befores[1..], tops[1..], umask, archives[1..], i - 1);
    }
  }

  // ---------------------------------------------------------------- extracting again

  /** The entry's place holds what the entry makes of it. */
  ghost predicate Settled(fs: Nodes, top: Path, umask: Mode, e: Entry)
  {
    var loc := top + PathOf(e);
    && loc in fs && Unobstructed(fs, loc, e)
    && (Fits(fs, loc, e) <==> !e.h.flag.TypeSymlink?)
    && (Fits(fs, loc, e) ==> Landed(fs, loc, umask, e) == fs[loc])
  }

  lemma OverwriteTwice(existing: seq<Byte>, data: seq<Byte>)
    ensures Overwrite(Overwrite(existing, data), data) == Overwrite(existing, data)
  {
    var once := Overwrite(existing, data);
    assert once[|data|..] == if |data| <= |existing| then existing[|data|..] else [];
  }

  /** What has landed is settled, whatever was there before and whatever the umask is next time. */
  lemma {:induction false} LandsAgain(before: Nodes, after: Nodes, top: Path, umask: Mode, again: Mode, e: Entry)
    requires var loc := top + PathOf(e);
             Fits(before, loc, e) && loc in after && after[loc] == Landed(before, loc, umask, e)
    requires !e.h.flag.TypeOther?
    ensures Settled(after, top, again, e)
  {
    var loc := top + PathOf(e);
    if e.h.flag.TypeReg? {
      var existing := if loc in before then before[loc].bytes else [];
      assert Overwrite([], e.body) == e.body;
      OverwriteTwice(existing, e.body);
    }
  }

  /** Overlaying settled entries changes nothing. */
  lemma {:induction false} OverlayOfItself(after: Nodes, last: Nodes, top: Path, umask: Mode, es: seq<Entry>)
    requires Overlaid(after, last, top, umask, es) && AllFit(after, top, es)
    requires forall i :: 0 <= i < |es| ==> Settled(after, top, umask, es[i])
    ensures last == after
  {
    forall q | q in Targets(top, es)
      ensures q in after && last[q] == after[q]
    {
      var i :| 0 <= i < |es| && q == top + PathOf(es[i]);
      assert Settled(after, top, umask, es[i]) && Fits(after, q, es[i]);
    }
    assert last.Keys == after.Keys;
  }

  /** Replaying settled entries changes nothing and fails only at a link. */
  lemma {:induction false} SettledReplay(after: Nodes, dir: Path, top: Path, umask: Mode, es: seq<Entry>)
    requires Replayable(es) && LeadsTo(after, dir, top)
    requires forall i :: 0 <= i < |es| ==> Settled(after, top, umask, es[i])
    ensures var r := Replay(after, dir, umask, es);
            r.fs == after && (r.err.None? <==> forall i :: 0 <= i < |es| ==> !es[i].h.flag.TypeSymlink?)
  {
    assert NothingObstructs(after, top, es) by {
      assert forall i :: 0 <= i < |es| ==> Settled(after, top, umask, es[i]);
    }
    assert AllFit(after, top, es) <==> forall i :: 0 <= i < |es| ==> !es[i].h.flag.TypeSymlink? by {
      assert forall i :: 0 <= i < |es| ==>
               (Fits(after, top + PathOf(es[i]), es[i]) <==> !es[i].h.flag.TypeSymlink?) by {
        assert forall i :: 0 <= i < |es| ==> Settled(after, top, umask, es[i]);
      }
    }
    OverlayLaw(after, dir, top, umask, es);
    var r := Replay(after, dir, umask, es);
    if r.err.None? {
      OverlayOfItself(after, r.fs, top, umask, es);
    } else {
      var k := FailedReplay(after, dir, top, umask, es);
      assert forall i :: 0 <= i < k ==> es[..k][i] == es[i];
      OverlayOfItself(after, r.fs, top, umask, es[..k]);
    }
  }

  lemma {:induction false} AllSettled(before: Nodes, after: Nodes, top: Path, umask: Mode, again: Mode, es: seq<Entry>)
    requires Replayable(es) && AllFit(before, top, es) && Overlaid(before, after, top, umask, es)
    ensures forall i :: 0 <= i < |es| ==> Settled(after, top, again, es[i])
  {
    forall i | 0 <= i < |es|
      ensures Settled(after, top, again, es[i])
    {
      assert GoodEntry(es[i]) && Fits(before, top + PathOf(es[i]), es[i]);
      assert top + PathOf(es[i]) in Targets(top, es);
      LandsAgain(before, after, top, umask, again, es[i]);
    }
  }

  /** The entry that stopped a replay does not fit afterwards either. */
  lemma {:induction false} StopsAgain(before: Nodes, after: Nodes, dir: Path, top: Path, umask: Mode, again: Mode,
                                      es: seq<Entry>)
    requires es != [] && Replayable(es) && LeadsTo(before, dir, top) && NothingObstructs(before, top, es)
    requires var k := |es| - 1;
             && AllFit(before, top, es[..k]) && Overlaid(before, after, top, umask, es[..k])
             && !Fits(before, top + PathOf(es[k]), es[k])
    ensures var r := Step(after, dir, again, es[|es| - 1]); r.err.Some? && r.fs == after
  {
    var k := |es| - 1;
    var loc := top + PathOf(es[k]);
    OverlayGrows(before, after, dir, top, umask, es[..k]);
    LastPlaceIsNew(top, es);
    ParentsAreReady(before, after, top, umask, es);
    assert loc in after <==> loc in before;
    assert loc in before ==> after[loc] == before[loc];
    assert GoodEntry(es[k]) && Unobstructed(before, loc, es[k]);
    StepExact(after, dir, top, again, es[k]);
  }

  lemma {:induction false} PrefixUnobstructed(fs: Nodes, top: Path, es: seq<Entry>, k: nat)
    requires NothingObstructs(fs, top, es) && k <= |es|
    ensures NothingObstructs(fs, top, es[..k])
  {
    forall i | 0 <= i < k
      ensures Unobstructed(fs, top + PathOf(es[..k][i]), es[..k][i])
    {
      assert es[..k][i] == es[i];
    }
  }

  /** The entries before the stop, again. */
  lemma {:induction false} BeforeTheStop(before: Nodes, after: Nodes, dir: Path, top: Path, umask: Mode, again: Mode,
                                         done: seq<Entry>)
    requires Replayable(done) && LeadsTo(before, dir, top)
    requires AllFit(before, top, done) && Overlaid(before, after, top, umask, done)
    ensures Replay(after, dir, again, done).fs == after
  {
    OverlayGrows(before, after, dir, top, umask, done);
    AllSettled(before, after, top, umask, again, done);
    SettledReplay(after, dir, top, again, done);
  }

  /** A replay that failed, again: it stops at the same entry, or at a link before it. */
  lemma {:induction false} FailsAgain(before: Nodes, after: Nodes, dir: Path, top: Path, umask: Mode, again: Mode,
                                      es: seq<Entry>, k: nat)
    requires Replayable(es) && LeadsTo(before, dir, top) && NothingObstructs(before, top, es) && k < |es|
    requires AllFit(before, top, es[..k]) && Overlaid(before, after, top, umask, es[..k])
    requires !Fits(before, top + PathOf(es[k]), es[k])
    ensures var second := Replay(after, dir, again, es); second.fs == after && second.err.Some?
  {
    var done, part := es[..k], es[..k + 1];
    assert part[..k] == done && part[k] == es[k];
    ReplayablePrefix(es, k);
    BeforeTheStop(before, after, dir, top, umask, again, done);
    if Replay(after, dir, again, done).err.Some? {
      ErrorSticks(after, dir, again, es, k);
    } else {
      ReplayablePrefix(es, k + 1);
      PrefixUnobstructed(before, top, es, k + 1);
      StopsAgain(before, after, dir, top, umask, again, part);
      ErrorSticks(after, dir, again, es, k + 1);
    }
  }

  /** Replaying an archive a second time over any destination without links or devices in the way,
      and whatever became of the first time, changes nothing. It succeeds if and only if the first
      time did and the archive has no link. */
  lemma {:induction false} ExtractTwice(before: Nodes, dir: Path, top: Path, umask: Mode, again: Mode, es: seq<Entry>)
    requires Replayable(es) && LeadsTo(before, dir, top) && NothingObstructs(before, top, es)
    ensures var first := Replay(before, dir, umask, es);
            var second := Replay(first.fs, dir, again, es);
            && second.fs == first.fs
            && (second.err.None? <==>
                  first.err.None? && forall i :: 0 <= i < |es| ==> !es[i].h.flag.TypeSymlink?)
  {
    var first := Replay(before, dir, umask, es);
    OverlayLaw(before, dir, top, umask, es);
    if first.err.None? {
      OverlayGrows(before, first.fs, dir, top, umask, es);
      AllSettled(before, first.fs, top, umask, again, es);
      SettledReplay(first.fs, dir, top, again, es);
    } else {
      var k := FailedReplay(before, dir, top, umask, es);
      FailsAgain(before, first.fs, dir, top, umask, again, es, k);
    }
  }

  /** In particular, an archive extracts twice into an empty directory exactly if it has no link. */
  lemma {:induction false} ExtractTwiceIntoEmpty(before: Nodes, dir: Path, top: Path, umask: Mode, again: Mode,
                                                 es: seq<Entry>)
    requires Replayable(es) && LeadsTo(before, dir, top) && EmptyDirectory(before, top)
    ensures var second := Replay(Replay(before, dir, umask, es).fs, dir, again, es);
            second.err.None? <==> forall i :: 0 <= i < |es| ==> !es[i].h.flag.TypeSymlink?
  {
    forall i | 0 <= i < |es|
      ensures Unobstructed(before, top + PathOf(es[i]), es[i])
    {
      assert GoodEntry(es[i]);
      NothingThere(before, top, PathOf(es[i]));
    }
    ExtractsIntoEmpty(before, dir, top, umask, es);
    ExtractTwice(before, dir, top, umask, again, es);
  }
}
