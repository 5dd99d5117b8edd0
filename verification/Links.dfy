/** What symbolic links mean before and after a round trip. */
module Links {
  import opened Options
  import opened Text
  import opened Filepath
  import opened Disk
  import opened Tar
  import opened Archive
  import opened RoundTrips
  import opened Chains

  // ---------------------------------------------------------------- flattening

  /** Every link entry of an archive names a fully resolved object that is no link, which resolves
      to itself and, joined to the root, is exactly where the source link leads. */
  lemma {:induction false} LinksAreFlat(fs: Nodes, root: Path, es: seq<Entry>, i: nat)
    requires Tree(fs) && ArchiveOf(fs, root, es) && i < |es| && es[i].h.flag.TypeSymlink?
    ensures var target := EvalSymlinks(fs, root + PathOf(es[i]));
            && target.Some? && target.value in fs && !fs[target.value].Link?
            && EvalSymlinks(fs, target.value) == target
            && JoinPaths(Absolute(root), es[i].h.linkname) == Absolute(target.value)
  {
    var p := PathOf(es[i]);
    assert Represents(fs, root, es[i]);
    LocationsAreNames(fs, root + p);
    NamesApart(root, p);
    WalkEnds(fs, [], root + p, 0, EVAL_LINKS);
    var target := EvalSymlinks(fs, root + p).value;
    LocationsAreNames(fs, target);
    ResolvedIsFixed(fs, target, EVAL_LINKS);
    JoinRel(root, target);
  }

  // ---------------------------------------------------------------- what the text of a link means

  /** A link is followed lexically from its own directory, or from "/" if its text is absolute, when
      there are only directories on the way. */
  lemma {:induction false} FollowText(fs: Nodes, dir: Path, n: string, limit: nat)
    requires Tree(fs) && IsName(n) && dir + [n] in fs && fs[dir + [n]].Link? && limit > 0
    requires var text := fs[dir + [n]].text;
             var base, parts := if Rooted(text) then [] else dir, Split(text, '/');
             && (forall i :: 0 <= i < |parts| ==> IsDirectory(fs, Squash(true, base, parts[..i])))
             && Squash(true, base, parts) in fs && !fs[Squash(true, base, parts)].Link?
    ensures var text := fs[dir + [n]].text;
            var end := Squash(true, if Rooted(text) then [] else dir, Split(text, '/'));
            Walk(fs, [], dir + [n], 0, limit) == Found(end, 1)
  {
    var text := fs[dir + [n]].text;
    var base := if Rooted(text) then [] else dir;
    FirstLink(fs, dir, n);
    ResolveFromDirectory(fs, dir, [n], limit);
    WalkAfterLinks(fs, dir, [n], 1, 0, limit);
    LocationsAreNames(fs, dir);
    WalkIsLexical(fs, base, Split(text, '/'), 1, limit);
  }

  /** A relative text of k times ".." and then names. */
  function UpText(k: nat, t: Path): string
  {
    Join(Ups(k) + t, '/')
  }

  lemma {:induction false} UpTextComponents(k: nat, t: Path)
    requires AllNames(t) && Ups(k) + t != []
    ensures !Rooted(UpText(k, t)) && Split(UpText(k, t), '/') == Ups(k) + t
  {
    var parts := Ups(k) + t;
    forall i | 0 <= i < |parts|
      ensures '/' !in parts[i] && parts[i] != ""
    {
      if i >= k { assert IsName(t[i - k]); }
    }
    SplitJoin(parts, '/');
    assert parts[0][0] in parts[0];
  }

  /** The stages of the way up. */
  lemma {:induction false} UpStage(fs: Nodes, dir: Path, k: nat, t: Path, i: nat)
    requires Tree(fs) && IsDirectory(fs, dir) && AllNames(dir) && i <= k <= |dir|
    ensures Squash(true, dir, (Ups(k) + t)[..i]) == dir[..|dir| - i] && IsDirectory(fs, dir[..|dir| - i])
  {
    assert (Ups(k) + t)[..i] == Ups(i);
    SquashUps(dir, i);
    if i > 0 { PrefixesAreDirectories(fs, dir, |dir| - i); } else { assert dir[..|dir|] == dir; }
  }

  /** The stages of the way down. */
  lemma {:induction false} DownStage(fs: Nodes, dir: Path, k: nat, t: Path, i: nat)
    requires Tree(fs) && AllNames(dir) && k <= |dir| && AllNames(t) && i <= |t|
    requires dir[..|dir| - k] + t in fs
    ensures Squash(true, dir, (Ups(k) + t)[..k + i]) == dir[..|dir| - k] + t[..i]
    ensures i < |t| ==> IsDirectory(fs, dir[..|dir| - k] + t[..i])
  {
    var top := dir[..|dir| - k];
    assert (Ups(k) + t)[..k + i] == Ups(k) + t[..i];
    SquashAppend(true, dir, Ups(k), t[..i]);
    SquashUps(dir, k);
    SquashNames(true, top, t[..i]);
    if i < |t| {
      PrefixesAreDirectories(fs, top + t, |top| + i);
      assert (top + t)[..|top| + i] == top + t[..i];
    }
  }

  lemma {:induction false} UpStages(fs: Nodes, dir: Path, k: nat, t: Path)
    requires Tree(fs) && IsDirectory(fs, dir) && AllNames(dir) && k <= |dir| && AllNames(t)
    requires dir[..|dir| - k] + t in fs
    ensures Squash(true, dir, Ups(k) + t) == dir[..|dir| - k] + t
    ensures forall i :: 0 <= i < k + |t| ==> IsDirectory(fs, Squash(true, dir, (Ups(k) + t)[..i]))
  {
    forall i | 0 <= i < k + |t|
      ensures IsDirectory(fs, Squash(true, dir, (Ups(k) + t)[..i]))
    {
      StageIsDirectory(fs, dir, k, t, i);
    }
    SquashAppend(true, dir, Ups(k), t);
    SquashUps(dir, k);
    SquashNames(true, dir[..|dir| - k], t);
  }

  lemma {:induction false} StageIsDirectory(fs: Nodes, dir: Path, k: nat, t: Path, i: nat)
    requires Tree(fs) && IsDirectory(fs, dir) && AllNames(dir) && k <= |dir| && AllNames(t) && i < k + |t|
    requires dir[..|dir| - k] + t in fs
    ensures IsDirectory(fs, Squash(true, dir, (Ups(k) + t)[..i]))
  {
    if i <= k {
      UpStage(fs, dir, k, t, i);
    } else {
      var j := i - k;
      assert i == k + j;
      DownStage(fs, dir, k, t, j);
    }
  }

  /** A link with the text "../" k times and then t leads from its directory k levels up and down to t,
      whatever is there that is no link. */
  lemma {:induction false} RelativeLink(fs: Nodes, dir: Path, n: string, k: nat, t: Path)
    requires Tree(fs) && IsName(n) && dir + [n] in fs && fs[dir + [n]] == Link(UpText(k, t))
    requires AllNames(t) && Ups(k) + t != [] && k <= |dir|
    requires var end := dir[..|dir| - k] + t; end in fs && !fs[end].Link?
    ensures var end := dir[..|dir| - k] + t;
            && EvalSymlinks(fs, dir + [n]) == Some(end) && Resolve(fs, dir + [n]) == Found(end, 1)
            && (Archivable(fs, dir + [n]) <==> fs[end] != Other(false))
  {
    UpTextComponents(k, t);
    assert Parent(dir + [n]) == dir;
    LocationsAreNames(fs, dir);
    UpStages(fs, dir, k, t);
    FollowText(fs, dir, n, EVAL_LINKS);
    FollowText(fs, dir, n, KERNEL_LINKS);
    OpenAt(fs, dir + [n], dir[..|dir| - k] + t);
  }

  lemma {:induction false} OpenAt(fs: Nodes, path: Path, end: Path)
    requires path in fs && fs[path].Link? && end in fs
    requires EvalSymlinks(fs, path) == Some(end) && Resolve(fs, path) == Found(end, 1)
    ensures Archivable(fs, path) <==> fs[end] != Other(false)
  {
  }

  lemma {:induction false} AbsoluteComponents(t: Path)
    requires AllNames(t)
    ensures Rooted(Absolute(t)) && Split(Absolute(t), '/') == [""] + if t == [] then [""] else t
  {
    var s := Join(t, '/');
    assert Absolute(t) == "" + ['/'] + s;
    SplitAtSeparator("", s, '/');
    if t != [] { SplitJoin(t, '/'); }
  }

  /** A link with the text "/" and then t leads to t, wherever the link lies. */
  lemma {:induction false} AbsoluteLink(fs: Nodes, dir: Path, n: string, t: Path)
    requires Tree(fs) && IsName(n) && dir + [n] in fs && fs[dir + [n]] == Link(Absolute(t))
    requires t in fs && !fs[t].Link?
    ensures EvalSymlinks(fs, dir + [n]) == Some(t) && Resolve(fs, dir + [n]) == Found(t, 1)
    ensures Archivable(fs, dir + [n]) <==> fs[t] != Other(false)
  {
    LocationsAreNames(fs, t);
    AbsoluteComponents(t);
    ComponentsOfAbsolute(t);
    var parts := Split(Absolute(t), '/');
    forall i | 0 <= i < |parts|
      ensures IsDirectory(fs, Squash(true, [], parts[..i]))
    {
      AbsoluteStage(fs, t, i);
    }
    FollowText(fs, dir, n, EVAL_LINKS);
    FollowText(fs, dir, n, KERNEL_LINKS);
    OpenAt(fs, dir + [n], t);
  }

  lemma {:induction false} AbsoluteStage(fs: Nodes, t: Path, i: nat)
    requires Tree(fs) && t in fs && AllNames(t)
    requires var parts := [""] + if t == [] then [""] else t; i < |parts|
    ensures var parts := [""] + if t == [] then [""] else t; IsDirectory(fs, Squash(true, [], parts[..i]))
  {
    var parts := [""] + if t == [] then [""] else t;
    if i > 0 {
      var names := if t == [] then [] else t[..i - 1];
      assert parts[..i] == [""] + names;
      SquashAppend(true, [], [""], names);
      SquashOne([], "");
      SquashNames(true, [], names);
      assert [] + names == names;
      if t != [] { PrefixesAreDirectories(fs, t, i - 1); }
    }
  }

  /** The text stored for a link, wherever it leads: one ".." for each component of the root beyond the
      part it shares with the target, and then the rest of the target. */
  lemma {:induction false} StoredText(fs: Nodes, p: Path, c: Path, b: Path, t: Path)
    requires Tree(fs) && c + b + p in fs && fs[c + b + p].Link? && EvalSymlinks(fs, c + b + p) == Some(c + t)
    requires b + t != [] && (b == [] || t == [] || b[0] != t[0])
    ensures EntryFor(fs, c + b, p).h.linkname == UpText(|b|, t)
  {
    LocationsAreNames(fs, c + b + p);
    WalkEnds(fs, [], c + b + p, 0, EVAL_LINKS);
    LocationsAreNames(fs, c + t);
    NamesApart(c + b, p);
    NamesApart(c, b);
    NamesApart(c, t);
    RelExact(c, b, t);
  }

  // ---------------------------------------------------------------- meaning after extraction

  /** Where a link at dst/p with the given relative text leads, read lexically. */
  function LexicalTarget(dst: Path, p: Path, text: string): Path
    requires p != []
  {
    Squash(true, dst + Parent(p), Split(text, '/'))
  }

  /** Links are rewritten relative to the root but replayed in their own directory. The extracted
      link at p therefore names dst/dirname(p)/t where root/t was meant, and that is dst/t exactly
      for links directly under the root. */
  lemma {:induction false} LinkMeaning(root: Path, dst: Path, p: Path, t: Path)
    requires AllNames(root) && AllNames(dst) && AllNames(p) && AllNames(t) && p != []
    ensures var text := Rel(Absolute(root), Absolute(root + t));
            && text.Some?
            && LexicalTarget(dst, p, text.value) == dst + Parent(p) + t
            && (LexicalTarget(dst, p, text.value) == dst + t <==> |p| == 1)
  {
    RelInside(root, t);
    TextComponents(t);
    var dir := dst + Parent(p);
    assert Rel(Absolute(root), Absolute(root + t)) == Some(LocalText(t));
    if t == [] {
      assert dir + t == dir;
      assert LexicalTarget(dst, p, LocalText(t)) == Squash(true, dir, ["."]) == dir;
    } else {
      SquashNames(true, dir, t);
      assert LexicalTarget(dst, p, LocalText(t)) == dir + t;
    }
    if |p| == 1 {
      assert dir == dst;
    } else {
      assert |dir + t| > |dst + t|;
    }
  }

  /** The text of a link to root/t. */
  function LocalText(t: Path): string
  {
    if t == [] then "." else Join(t, '/')
  }

  lemma {:induction false} TextComponents(t: Path)
    requires AllNames(t)
    ensures !Rooted(LocalText(t))
    ensures Split(LocalText(t), '/') == if t == [] then ["."] else t
  {
    if t == [] {
      SplitWithoutSeparator(".", '/');
    } else {
      SplitJoin(t, '/');
      NameFirstCharacter(t);
    }
  }

  /** Every link below the root leads to an object inside the root. */
  ghost predicate LinksStayInside(fs: Nodes, root: Path)
  {
    forall p :: p in Below(fs.Keys, root) && root + p in fs && fs[root + p].Link? ==>
      var target := EvalSymlinks(fs, root + p); target.Some? && root <= target.value
  }

  /** Every link lies directly under the root. */
  ghost predicate LinksAtTop(fs: Nodes, root: Path)
  {
    forall p :: p in Below(fs.Keys, root) && root + p in fs && fs[root + p].Link? ==> |p| == 1
  }

  /** Where a link leads, relative to the root. */
  function Destination(fs: Nodes, root: Path, p: Path): Path
    requires EvalSymlinks(fs, root + p).Some? && root <= EvalSymlinks(fs, root + p).value
  {
    EvalSymlinks(fs, root + p).value[|root|..]
  }

  /** A link inside the root is stored as the names of its destination. */
  lemma {:induction false} InsideLink(fs: Nodes, root: Path, p: Path)
    requires Tree(fs) && LinksStayInside(fs, root) && p != [] && root + p in fs && fs[root + p].Link?
    ensures p in Below(fs.Keys, root)
    ensures var t := Destination(fs, root, p);
            && EvalSymlinks(fs, root + p) == Some(root + t)
            && root + t in fs && !fs[root + t].Link? && AllNames(t) && AllNames(root)
            && EntryFor(fs, root, p).h.linkname == LocalText(t)
  {
    BelowMember(fs.Keys, root, p);
    LinkInto(fs, root, p, EvalSymlinks(fs, root + p).value);
  }

  lemma {:induction false} LinkInto(fs: Nodes, root: Path, p: Path, target: Path)
    requires Tree(fs) && root + p in fs && fs[root + p].Link?
    requires EvalSymlinks(fs, root + p) == Some(target) && root <= target
    ensures var t := target[|root|..];
            && target == root + t
            && target in fs && !fs[target].Link? && AllNames(t) && AllNames(root)
            && EntryFor(fs, root, p).h.linkname == LocalText(t)
  {
    var t := target[|root|..];
    assert target == root + t;
    LocationsAreNames(fs, root + p);
    WalkEnds(fs, [], root + p, 0, EVAL_LINKS);
    LocationsAreNames(fs, target);
    NamesApart(root, t);
    RelInside(root, t);
  }

  /** A local text followed from a directory where all directories of the destination exist. */
  lemma {:induction false} FollowLocalText(fs: Nodes, dir: Path, n: string, t: Path, limit: nat)
    requires Tree(fs) && dir + [n] in fs && fs[dir + [n]] == Link(LocalText(t)) && limit > 0
    requires AllNames(t) && dir + t in fs && !fs[dir + t].Link? && IsDirectory(fs, dir)
    ensures Walk(fs, [], dir + [n], 0, limit) == Found(dir + t, 1)
  {
    ResolveFromDirectory(fs, dir, [n], limit);
    TextComponents(t);
    LocationsAreNames(fs, dir + [n]);
    assert IsName((dir + [n])[|dir|]);
    assert Walk(fs, dir, [n], 0, limit) == Walk(fs, dir, Split(LocalText(t), '/') + [], 1, limit);
    if t == [] {
      assert ["."] + [] == ["."] && dir + t == dir;
      assert Walk(fs, dir, ["."], 1, limit) == Walk(fs, dir, [], 1, limit);
    } else {
      assert t + [] == t;
      DescendTo(fs, dir, t, 1, limit);
    }
  }

  /** In a tree, the names of an existing object below a directory are followed literally. */
  lemma {:induction false} DescendTo(fs: Nodes, dir: Path, t: Path, links: nat, limit: nat)
    requires Tree(fs) && links <= limit && t != [] && AllNames(t) && dir + t in fs && !fs[dir + t].Link?
    ensures Walk(fs, dir, t, links, limit) == Found(dir + t, links)
  {
    forall i | 0 < i < |t|
      ensures IsDirectory(fs, dir + t[..i])
    {
      PrefixesAreDirectories(fs, dir + t, |dir| + i);
      assert (dir + t)[..|dir| + i] == dir + t[..i];
    }
    WalkDown(fs, dir, t, links, limit);
  }

  /** The copy of a link holds its local text, the copy of its destination is there. */
  lemma {:induction false} LinkAndDestinationCopied(src: Nodes, root: Path, p: Path, t: Path,
                                                    before: Nodes, after: Nodes, top: Path, umask: Mode)
    requires p in Below(src.Keys, root) && root + p in src && src[root + p].Link?
    requires EntryFor(src, root, p).h.linkname == LocalText(t)
    requires root + t in src && !src[root + t].Link? && IsDirectory(after, top)
    requires CopiedOnly(src, root, Below(src.Keys, root), before, after, top, umask)
    ensures top + p in after && after[top + p] == Link(LocalText(t))
    ensures top + t in after && !after[top + t].Link?
  {
    if t == [] {
      assert top + t == top;
    } else {
      BelowMember(src.Keys, root, t);
    }
  }

  /** The positive half: after a round trip, a link directly under the root leads to the copy of
      the object it led to in the source, for the kernel and for EvalSymlinks. */
  lemma {:induction false} TopLinkKeepsMeaning(src: Nodes, root: Path, n: string,
                                               before: Nodes, after: Nodes, top: Path, umask: Mode)
    requires Tree(src) && LinksStayInside(src, root) && root + [n] in src && src[root + [n]].Link?
    requires CopiedOnly(src, root, Below(src.Keys, root), before, after, top, umask)
    requires Tree(after) && IsDirectory(after, top)
    ensures var t := Destination(src, root, [n]);
            && EvalSymlinks(after, top + [n]) == Some(top + t)
            && Resolve(after, top + [n]) == Found(top + t, 1)
  {
    InsideLink(src, root, [n]);
    var t := Destination(src, root, [n]);
    LinkAndDestinationCopied(src, root, [n], t, before, after, top, umask);
    FollowLocalText(after, top, n, t, EVAL_LINKS);
    FollowLocalText(after, top, n, t, KERNEL_LINKS);
  }
}
