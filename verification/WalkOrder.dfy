/** The set-and-order side of a recursive directory walk: what has been visited after each child,
    and that visiting children in name order enumerates paths in walk order. */
module WalkOrder {
  import opened Filepath
  import opened Disk
  import opened Order
  import opened Archive

  /** The paths below the root that lie at or under `p`. */
  ghost function Part(keys: set<Path>, root: Path, p: Path): set<Path>
  {
    set q | q in Below(keys, root) && p <= q
  }

  /** Those of them visited once `p` itself and the first `i` children are done. */
  ghost function Visited(keys: set<Path>, root: Path, p: Path, names: seq<string>, i: nat): set<Path>
    requires i <= |names|
  {
    set q | q in Part(keys, root, p) && (q == p || q[|p|] in names[..i])
  }

  /** The members of `s` before `stop`, or up to and including it. */
  ghost function UpTo(s: set<Path>, stop: Path, including: bool): set<Path>
  {
    set q | q in s && (Before(q, stop) || (including && q == stop))
  }

  /** `names` are the children of `p`, in ascending order. */
  ghost predicate Children(keys: set<Path>, root: Path, p: Path, names: seq<string>)
  {
    && NamesAscend(names)
    && forall n :: n in names <==> root + p + [n] in keys
  }

  lemma VisitedNone(keys: set<Path>, root: Path, p: Path, names: seq<string>)
    requires root + p in keys
    ensures Visited(keys, root, p, names, 0) == if p == [] then {} else {p}
  {
    BelowMember(keys, root, p);
  }

  /** Nothing lies below an object that is no directory. */
  lemma {:induction false} LeafPart(fs: Nodes, root: Path, p: Path)
    requires Tree(fs) && root + p in fs && !fs[root + p].Dir?
    ensures Part(fs.Keys, root, p) == if p == [] then {} else {p}
  {
    BelowMember(fs.Keys, root, p);
    forall q | q in Part(fs.Keys, root, p)
      ensures q == p
    {
      BelowMember(fs.Keys, root, q);
      assert (root + q)[..|root + p|] == root + p;
      if q != p { PrefixesAreDirectories(fs, root + q, |root + p|); }
    }
  }

  /** After the last child everything at or under `p` has been visited. */
  lemma {:induction false} VisitedAll(fs: Nodes, root: Path, p: Path, names: seq<string>)
    requires Tree(fs) && Children(fs.Keys, root, p, names)
    ensures Visited(fs.Keys, root, p, names, |names|) == Part(fs.Keys, root, p)
  {
    forall q | q in Part(fs.Keys, root, p) && q != p
      ensures q[|p|] in names[..|names|]
    {
      BelowMember(fs.Keys, root, q);
      ChildExists(fs, root, p, q);
      assert names[..|names|] == names;
    }
  }

  /** Everything under `p` lies at or under one of its children. */
  lemma {:induction false} ChildExists(fs: Nodes, root: Path, p: Path, q: Path)
    requires Tree(fs) && root + q in fs && p <= q && q != p
    ensures |p| < |q| && root + p + [q[|p|]] in fs
  {
    var k := |p|;
    var child := root + p + [q[k]];
    ChildIsPrefix(root, p, q);
    if |child| < |root + q| {
      PrefixesAreDirectories(fs, root + q, |child|);
    } else {
      assert (root + q)[..|root + q|] == root + q;
    }
  }

  lemma ChildIsPrefix(root: Path, p: Path, q: Path)
    requires p <= q && q != p
    ensures |p| < |q|
    ensures var child := root + p + [q[|p|]];
            |child| <= |root + q| && (root + q)[..|child|] == child
  {
    assert q[..|p| + 1] == p + [q[|p|]];
    assert (root + q)[..|root| + |p| + 1] == root + q[..|p| + 1];
    assert root + (p + [q[|p|]]) == root + p + [q[|p|]];
  }

  /** Whatever was visited before child `i` comes before everything under that child. */
  lemma {:induction false} VisitedBeforeChild(keys: set<Path>, root: Path, p: Path, names: seq<string>, i: nat)
    requires Children(keys, root, p, names) && i < |names|
    ensures forall a, b :: a in Visited(keys, root, p, names, i) && b in Part(keys, root, p + [names[i]]) ==>
              Before(a, b) && !Before(b, a) && a != b
  {
    forall a, b | a in Visited(keys, root, p, names, i) && b in Part(keys, root, p + [names[i]])
      ensures Before(a, b) && !Before(b, a) && a != b
    {
      assert b[..|p| + 1] == p + [names[i]];
      assert b[..|p|] == p && b[|p|] == names[i];
      if a == p {
        PrefixBefore(a, b);
      } else {
        var j :| 0 <= j < i && names[j] == a[|p|];
        BeforeAtFork(a, b, |p|);
        NameLessIrreflexive(names[i]);
      }
    }
  }

  /** Child `i` adds exactly what lies at or under it. */
  lemma VisitedChild(keys: set<Path>, root: Path, p: Path, names: seq<string>, i: nat)
    requires i < |names|
    ensures Visited(keys, root, p, names, i + 1)
         == Visited(keys, root, p, names, i) + Part(keys, root, p + [names[i]])
  {
    var child := p + [names[i]];
    forall q | q in Visited(keys, root, p, names, i + 1)
      ensures q in Visited(keys, root, p, names, i) || q in Part(keys, root, child)
    {
      if q != p && q[|p|] !in names[..i] {
        assert q[|p|] == names[i];
        assert q[..|child|] == child;
      }
    }
    forall q | q in Part(keys, root, child)
      ensures q in Visited(keys, root, p, names, i + 1)
    {
      assert q[..|child|] == child;
      assert q[..|p|] == p && q[|p|] == names[i];
      assert names[i] in names[..i + 1];
    }
  }

  /** A walk that stops under child `i` has covered exactly the paths up to the stop. */
  lemma {:induction false} StoppedUnderChild(fs: Nodes, root: Path, p: Path, names: seq<string>, i: nat,
                                             stop: Path, including: bool)
    requires Tree(fs) && Children(fs.Keys, root, p, names) && i < |names|
    requires p + [names[i]] <= stop && root + stop in fs
    ensures Visited(fs.Keys, root, p, names, i) + UpTo(Part(fs.Keys, root, p + [names[i]]), stop, including)
         == UpTo(Part(fs.Keys, root, p), stop, including)
  {
    var keys, child := fs.Keys, p + [names[i]];
    BelowMember(keys, root, stop);
    assert stop in Part(keys, root, child);
    VisitedBeforeChild(keys, root, p, names, i);
    VisitedChild(keys, root, p, names, i);
    VisitedAll(fs, root, p, names);
    assert stop[..|child|] == child;
    assert stop[..|p|] == p && stop[|p|] == names[i];
    forall q | q in Part(keys, root, p) && q !in Visited(keys, root, p, names, i + 1)
      ensures !Before(q, stop) && q != stop
    {
      assert q[|p|] in names[..|names|];
      var j :| 0 <= j < |names| && names[j] == q[|p|];
      assert forall m :: 0 <= m <= i ==> names[..i + 1][m] == names[m];
      assert j > i;
      BeforeAtFork(stop, q, |p|);
      NameLessIrreflexive(names[i]);
    }
  }

  /** A walk that stops at `p` itself has covered nothing before it. */
  lemma {:induction false} StoppedAtTop(keys: set<Path>, root: Path, p: Path)
    requires root + p in keys
    ensures UpTo(Part(keys, root, p), p, false) == {}
    ensures p != [] ==> UpTo(Part(keys, root, p), p, true) == {p}
  {
    BelowMember(keys, root, p);
    forall q | q in Part(keys, root, p)
      ensures !Before(q, p)
    {
      if q == p { BeforeIrreflexive(p); } else { PrefixBefore(p, q); }
    }
  }
}
