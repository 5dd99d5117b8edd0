/** Links below the top level after a round trip: where they can lead, and when they still lead to
    the copies of their destinations. */
module DeepLinks {
  import opened Options
  import opened Text
  import opened Filepath
  import opened Disk
  import opened Archive
  import opened RoundTrips
  import opened Chains
  import opened Links

  predicate LocalComponent(c: string)
  {
    c == "" || c == "." || IsName(c)
  }

  /** Links under `home` are relative and never climb. */
  ghost predicate LinksNeverClimb(fs: Nodes, home: Path)
  {
    forall q :: q in fs && home <= q && fs[q].Link? ==> NeverClimbs(fs[q].text)
  }

  predicate NeverClimbs(text: string)
  {
    !Rooted(text) && forall i :: 0 <= i < |Split(text, '/')| ==> LocalComponent(Split(text, '/')[i])
  }

  /** Where links never climb, a walk never leaves. */
  lemma {:induction false} Confined(fs: Nodes, home: Path, done: Path, todo: seq<string>, links: nat, limit: nat)
    requires links <= limit && LinksNeverClimb(fs, home) && home <= done
    requires forall i :: 0 <= i < |todo| ==> LocalComponent(todo[i])
    ensures var w := Walk(fs, done, todo, links, limit); w.Found? ==> home <= w.loc
    decreases limit - links, |todo|
  {
    if todo != [] {
      var c, rest := todo[0], todo[1..];
      var p := done + [c];
      assert LocalComponent(c) && home <= p;
      assert forall i :: 0 <= i < |rest| ==> rest[i] == todo[i + 1];
      if c == "" || c == "." {
        Confined(fs, home, done, rest, links, limit);
      } else if p in fs && fs[p].Dir? {
        Confined(fs, home, p, rest, links, limit);
      } else if p in fs && fs[p].Link? && links < limit {
        var parts := Split(fs[p].text, '/');
        assert NeverClimbs(fs[p].text);
        assert forall i :: 0 <= i < |parts| ==> LocalComponent(parts[i]);
        Confined(fs, home, done, parts + rest, links + 1, limit);
      }
    }
  }

  /** After a round trip no link below the destination climbs. */
  lemma {:induction false} CopiesNeverClimb(src: Nodes, root: Path, before: Nodes, after: Nodes, top: Path, umask: Mode)
    requires Tree(src) && LinksStayInside(src, root) && IsDirectory(after, top)
    requires CopiedOnly(src, root, Below(src.Keys, root), before, after, top, umask)
    ensures LinksNeverClimb(after, top)
  {
    forall q | q in after && top <= q && after[q].Link?
      ensures NeverClimbs(after[q].text)
    {
      var p := q[|top|..];
      assert q == top + p;
      assert q != top && (p == [] ==> top + p == top);
      CopiedLinkIsLocal(src, root, p, before, after, top, umask);
    }
  }

  lemma {:induction false} CopiedLinkIsLocal(src: Nodes, root: Path, p: Path,
                                             before: Nodes, after: Nodes, top: Path, umask: Mode)
    requires Tree(src) && LinksStayInside(src, root) && p != [] && top + p in after && after[top + p].Link?
    requires CopiedOnly(src, root, Below(src.Keys, root), before, after, top, umask)
    ensures NeverClimbs(after[top + p].text)
  {
    assert p in Below(src.Keys, root);
    assert after[top + p] == CopyOf(src, root, p, umask);
    InsideLink(src, root, p);
    TextComponents(Destination(src, root, p));
  }

  lemma {:induction false} NeverClimbsBelow(fs: Nodes, top: Path, dir: Path)
    requires LinksNeverClimb(fs, top)
    ensures LinksNeverClimb(fs, top + dir)
  {
    forall q | q in fs && top + dir <= q
      ensures top <= q
    {
      assert q[..|top|] == q[..|top + dir|][..|top|] == top;
    }
  }

  lemma PrefixBelow(top: Path, dir: Path, t: Path)
    requires top + dir <= top + t
    ensures dir <= t
  {
    assert |dir| <= |t|;
    forall i | 0 <= i < |dir|
      ensures dir[i] == t[i]
    {
      assert (top + dir)[|top| + i] == (top + t)[|top| + i];
    }
  }

  /** In a directory whose links never climb, following one of its entries stays in it. */
  lemma {:induction false} StaysHome(fs: Nodes, home: Path, n: string)
    requires Tree(fs) && IsDirectory(fs, home) && LinksNeverClimb(fs, home) && IsName(n)
    ensures var got := EvalSymlinks(fs, home + [n]); got.Some? ==> home <= got.value
  {
    ResolveFromDirectory(fs, home, [n], EVAL_LINKS);
    Confined(fs, home, home, [n], 0, EVAL_LINKS);
  }

  lemma ParentThenName(top: Path, p: Path)
    requires p != []
    ensures top + p == top + Parent(p) + [Last(p)]
  {
  }

  lemma {:induction false} ParentIsCopied(src: Nodes, root: Path, p: Path,
                                          before: Nodes, after: Nodes, top: Path, umask: Mode)
    requires Tree(src) && |p| > 1 && root + p in src
    requires CopiedOnly(src, root, Below(src.Keys, root), before, after, top, umask)
    ensures IsDirectory(after, top + Parent(p)) && IsName(Last(p))
  {
    var dir := Parent(p);
    assert Parent(root + p) == root + dir && Last(root + p) == Last(p);
    BelowMember(src.Keys, root, dir);
    assert after[top + dir] == CopyOf(src, root, dir, umask);
  }

  /** The negative half, beyond the lexical reading: a deeper link can only lead back into its own
      directory, so it has lost its meaning whenever its destination was elsewhere. */
  lemma {:induction false} DeepLinkStaysHome(src: Nodes, root: Path, p: Path,
                                             before: Nodes, after: Nodes, top: Path, umask: Mode)
    requires Tree(src) && LinksStayInside(src, root) && |p| > 1 && root + p in src && src[root + p].Link?
    requires CopiedOnly(src, root, Below(src.Keys, root), before, after, top, umask)
    requires Tree(after) && IsDirectory(after, top)
    ensures var got := EvalSymlinks(after, top + p);
            && (got.Some? ==> top + Parent(p) <= got.value)
            && (!(Parent(p) <= Destination(src, root, p)) ==> got != Some(top + Destination(src, root, p)))
  {
    var dir := Parent(p);
    ParentThenName(top, p);
    CopiesNeverClimb(src, root, before, after, top, umask);
    NeverClimbsBelow(after, top, dir);
    ParentIsCopied(src, root, p, before, after, top, umask);
    StaysHome(after, top + dir, Last(p));
    if top + dir <= top + Destination(src, root, p) {
      PrefixBelow(top, dir, Destination(src, root, p));
    }
  }

  // ---------------------------------------------------------------- which links keep their meaning

  predicate IsLink(src: Nodes, root: Path, p: Path)
  {
    root + p in src && src[root + p].Link?
  }

  /** The copy of the link leads to the copy of the link's destination. */
  predicate KeepsMeaning(src: Nodes, root: Path, p: Path, after: Nodes, top: Path)
    requires EvalSymlinks(src, root + p).Some? && root <= EvalSymlinks(src, root + p).value
  {
    EvalSymlinks(after, top + p) == Some(top + Destination(src, root, p))
  }

  ghost predicate LinksKeepMeaning(src: Nodes, root: Path, depth: nat, after: Nodes, top: Path)
    requires LinksStayInside(src, root)
  {
    forall p :: p in Below(src.Keys, root) && IsLink(src, root, p) && |p| >= depth ==>
      KeepsMeaning(src, root, p, after, top)
  }

  /** A copied link with names to follow is followed by them from its own directory. */
  lemma {:induction false} FollowNames(fs: Nodes, dir: Path, n: string, t: Path)
    requires Tree(fs) && IsName(n) && dir + [n] in fs && fs[dir + [n]] == Link(LocalText(t))
    requires t != [] && AllNames(t)
    ensures Walk(fs, [], dir + [n], 0, EVAL_LINKS) == Walk(fs, dir, t, 1, EVAL_LINKS)
  {
    FirstLink(fs, dir, n);
    TextComponents(t);
    ResolveFromDirectory(fs, dir, [n], EVAL_LINKS);
    WalkAfterLinks(fs, dir, [n], 1, 0, EVAL_LINKS);
  }

  /** A walk over names that gets anywhere ends where the names say, or meets a link. */
  lemma {:induction false} NamesOrLink(fs: Nodes, dir: Path, t: Path, links: nat, limit: nat) returns (k: nat)
    requires AllNames(t) && links <= limit && Walk(fs, dir, t, links, limit).Found?
    ensures k <= |t|
    ensures k == |t| ==> Walk(fs, dir, t, links, limit).loc == dir + t
    ensures k < |t| ==> dir + t[..k + 1] in fs && fs[dir + t[..k + 1]].Link?
    decreases |t|
  {
    k := 0;
    if t == [] {
      assert dir + t == dir;
    } else {
      var c, rest := t[0], t[1..];
      assert IsName(c) && t[..1] == [c];
      if fs[dir + [c]].Dir? {
        k := NamesOrLink(fs, dir + [c], rest, links, limit);
        assert dir + [c] + rest == dir + t;
        if k < |rest| { assert dir + [c] + rest[..k + 1] == dir + t[..k + 2]; }
        k := k + 1;
      } else if !fs[dir + [c]].Link? {
        assert t == [c];
        k := 1;
      }
    }
  }

  /** The destination of a deeper link that keeps its meaning lies in the link's own directory. */
  lemma {:induction false} KeptIsHome(src: Nodes, root: Path, p: Path,
                                      before: Nodes, after: Nodes, top: Path, umask: Mode)
    requires Tree(src) && LinksStayInside(src, root) && |p| > 1 && IsLink(src, root, p)
    requires CopiedOnly(src, root, Below(src.Keys, root), before, after, top, umask)
    requires Tree(after) && IsDirectory(after, top)
    ensures p in Below(src.Keys, root)
    ensures var t := Destination(src, root, p);
            && AllNames(t) && IsName(Last(p))
            && top + p in after && after[top + p] == Link(LocalText(t))
            && (KeepsMeaning(src, root, p, after, top) ==> Parent(p) <= t)
  {
    InsideLink(src, root, p);
    LinkAndDestinationCopied(src, root, p, Destination(src, root, p), before, after, top, umask);
    ParentIsCopied(src, root, p, before, after, top, umask);
    DeepLinkStaysHome(src, root, p, before, after, top, umask);
  }

  /** The copy of a link is a link, and nothing else is. */
  lemma {:induction false} CopiedLinkWasLink(src: Nodes, root: Path, q: Path,
                                             before: Nodes, after: Nodes, top: Path, umask: Mode)
    requires q != [] && top + q in after && after[top + q].Link?
    requires CopiedOnly(src, root, Below(src.Keys, root), before, after, top, umask)
    ensures q in Below(src.Keys, root) && IsLink(src, root, q)
  {
    assert q in Below(src.Keys, root);
    assert after[top + q] == CopyOf(src, root, q, umask);
  }

  /** A link that leads elsewhere than where its names say is resolved through another link. */
  lemma {:induction false} LinkOnTheWay(fs: Nodes, dir: Path, n: string, t: Path, got: Path) returns (k: nat)
    requires Tree(fs) && IsName(n) && dir + [n] in fs && fs[dir + [n]] == Link(LocalText(t))
    requires t != [] && AllNames(t) && EvalSymlinks(fs, dir + [n]) == Some(got) && |got| < |dir + t|
    ensures k < |t| && dir + t[..k + 1] in fs && fs[dir + t[..k + 1]].Link?
  {
    FollowNames(fs, dir, n, t);
    k := NamesOrLink(fs, dir, t, 1, EVAL_LINKS);
  }

  lemma DeeperOrBeside(top: Path, p: Path, t: Path, k: nat)
    requires |p| > 1 && Parent(p) <= t && k < |t|
    ensures var q := Parent(p) + t[..k + 1];
            && top + q == top + Parent(p) + t[..k + 1]
            && (|q| > |p| || q == Parent(p) + [p[0]])
  {
    assert t[0] == Parent(p)[0] == p[0];
    if k == 0 { assert t[..1] == [t[0]]; }
  }

  /** A deeper link that keeps its meaning is resolved through another link: a still deeper one, or
      one in its directory that has the name of its topmost directory. */
  lemma {:induction false} MeetsLink(src: Nodes, root: Path, p: Path,
                                     before: Nodes, after: Nodes, top: Path, umask: Mode) returns (q: Path)
    requires Tree(src) && LinksStayInside(src, root) && |p| > 1 && IsLink(src, root, p)
    requires CopiedOnly(src, root, Below(src.Keys, root), before, after, top, umask)
    requires Tree(after) && IsDirectory(after, top)
    requires p in Below(src.Keys, root) && KeepsMeaning(src, root, p, after, top)
    ensures q in Below(src.Keys, root) && IsLink(src, root, q)
    ensures |q| > |p| || q == Parent(p) + [p[0]]
  {
    var dir, t := Parent(p), Destination(src, root, p);
    KeptIsHome(src, root, p, before, after, top, umask);
    ParentThenName(top, p);
    var k := LinkOnTheWay(after, top + dir, Last(p), t, top + t);
    q := dir + t[..k + 1];
    DeeperOrBeside(top, p, t, k);
    CopiedLinkWasLink(src, root, q, before, after, top, umask);
  }

  /** A deeper link named like its topmost directory never keeps its meaning: its text would start
      with its own name. */
  lemma {:induction false} OwnNameLosesMeaning(src: Nodes, root: Path, q: Path,
                                               before: Nodes, after: Nodes, top: Path, umask: Mode)
    requires Tree(src) && LinksStayInside(src, root) && |q| > 1 && IsLink(src, root, q) && Last(q) == q[0]
    requires CopiedOnly(src, root, Below(src.Keys, root), before, after, top, umask)
    requires Tree(after) && IsDirectory(after, top)
    ensures q in Below(src.Keys, root) && !KeepsMeaning(src, root, q, after, top)
  {
    KeptIsHome(src, root, q, before, after, top, umask);
    if KeepsMeaning(src, root, q, after, top) {
      var t := Destination(src, root, q);
      assert t[0] == Parent(q)[0] == q[0];
      TextComponents(t);
      ParentThenName(top, q);
      SelfLinkFails(after, top + Parent(q), Last(q), [], 0, EVAL_LINKS);
    }
  }

  ghost function Longer(keys: set<Path>, n: nat): set<Path>
  {
    set q | q in keys && |q| > n
  }

  /** Where there is a deeper link at all, a deeper link has lost its meaning. */
  lemma {:induction false} SomeLinkLosesMeaning(src: Nodes, root: Path, p: Path,
                                                before: Nodes, after: Nodes, top: Path, umask: Mode)
    returns (q: Path)
    requires Tree(src) && LinksStayInside(src, root) && |p| > 1 && IsLink(src, root, p)
    requires CopiedOnly(src, root, Below(src.Keys, root), before, after, top, umask)
    requires Tree(after) && IsDirectory(after, top)
    ensures |q| > 1 && IsLink(src, root, q)
    ensures q in Below(src.Keys, root) && !KeepsMeaning(src, root, q, after, top)
    decreases Longer(src.Keys, |root + p|)
  {
    KeptIsHome(src, root, p, before, after, top, umask);
    if !KeepsMeaning(src, root, p, after, top) {
      q := p;
    } else {
      q := MeetsLink(src, root, p, before, after, top, umask);
      if |q| > |p| {
        assert root + q in Longer(src.Keys, |root + p|) && root + q !in Longer(src.Keys, |root + q|);
        q := SomeLinkLosesMeaning(src, root, q, before, after, top, umask);
      } else {
        assert q[0] == p[0] == Last(q);
        OwnNameLosesMeaning(src, root, q, before, after, top, umask);
      }
    }
  }

  /** The exact condition. After a round trip the deeper links all keep their meaning only if there
      are none, so the links all keep their meaning exactly when they lie directly under the root. */
  lemma {:induction false} MeaningKeptIff(src: Nodes, root: Path, before: Nodes, after: Nodes, top: Path, umask: Mode)
    requires Tree(src) && LinksStayInside(src, root)
    requires CopiedOnly(src, root, Below(src.Keys, root), before, after, top, umask)
    requires Tree(after) && IsDirectory(after, top)
    ensures LinksKeepMeaning(src, root, 0, after, top) <==> LinksAtTop(src, root)
    ensures LinksKeepMeaning(src, root, 2, after, top) <==> LinksAtTop(src, root)
  {
    if LinksAtTop(src, root) {
      forall p | p in Below(src.Keys, root) && IsLink(src, root, p)
        ensures KeepsMeaning(src, root, p, after, top) && |p| == 1
      {
        assert p == [p[0]];
        TopLinkKeepsMeaning(src, root, p[0], before, after, top, umask);
      }
    } else {
      var p :| p in Below(src.Keys, root) && root + p in src && src[root + p].Link? && |p| != 1;
      BelowMember(src.Keys, root, p);
      var q := SomeLinkLosesMeaning(src, root, p, before, after, top, umask);
    }
  }
}
