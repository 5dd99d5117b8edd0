/** Chains of symbolic links: how many are followed, which of them never end, and which of them
    can be archived. */
module Chains {
  import opened Options
  import opened Text
  import opened Filepath
  import opened Disk
  import opened Archive

  /** The position of a walk when it meets its next link, and how it goes on from there. */
  function NextLink(fs: Nodes, done: Path, todo: seq<string>): Option<(Path, seq<string>)>
    decreases |todo|
  {
    if todo == [] then None
    else
      var c, rest := todo[0], todo[1..];
      var p := done + [c];
      if c == "" || c == "." then NextLink(fs, done, rest)
      else if c == ".." then NextLink(fs, if done == [] then [] else Parent(done), rest)
      else if p !in fs then None
      else match fs[p]
        case Dir(_) => NextLink(fs, p, rest)
        case Link(text) => Some((if Rooted(text) then [] else done, Split(text, '/') + rest))
        case _ => None
  }

  /** A walk is its way to the next link and the walk from there. */
  lemma {:induction false} WalkToNextLink(fs: Nodes, done: Path, todo: seq<string>, links: nat, limit: nat)
    requires links <= limit && NextLink(fs, done, todo).Some?
    ensures var (d, t) := NextLink(fs, done, todo).value;
            Walk(fs, done, todo, links, limit) ==
              if links == limit then Stuck(ELOOP) else Walk(fs, d, t, links + 1, limit)
    decreases |todo|
  {
    var c, rest := todo[0], todo[1..];
    var p := done + [c];
    if c == "" || c == "." {
      WalkToNextLink(fs, done, rest, links, limit);
    } else if c == ".." {
      WalkToNextLink(fs, if done == [] then [] else Parent(done), rest, links, limit);
    } else if fs[p].Dir? {
      WalkToNextLink(fs, p, rest, links, limit);
    }
  }

  /** The walk after its first n links, if there are so many. */
  function AfterLinks(fs: Nodes, done: Path, todo: seq<string>, n: nat): Option<(Path, seq<string>)>
    decreases n
  {
    if n == 0 then Some((done, todo))
    else
      match NextLink(fs, done, todo)
      case None => None
      case Some(next) => AfterLinks(fs, next.0, next.1, n - 1)
  }

  /** n links further, a walk either has used up its limit or is the walk from there. */
  lemma {:induction false} WalkAfterLinks(fs: Nodes, done: Path, todo: seq<string>, n: nat, links: nat, limit: nat)
    requires links <= limit && AfterLinks(fs, done, todo, n).Some?
    ensures var (d, t) := AfterLinks(fs, done, todo, n).value;
            Walk(fs, done, todo, links, limit) ==
              if links + n > limit then Stuck(ELOOP) else Walk(fs, d, t, links + n, limit)
    decreases n
  {
    if n > 0 {
      var next := NextLink(fs, done, todo).value;
      WalkToNextLink(fs, done, todo, links, limit);
      if links < limit {
        WalkAfterLinks(fs, next.0, next.1, n - 1, links + 1, limit);
      }
    }
  }

  /** More names at the end do not change the way to the next link. */
  lemma {:induction false} NextLinkAppend(fs: Nodes, done: Path, todo: seq<string>, tail: seq<string>)
    requires NextLink(fs, done, todo).Some?
    ensures var (d, t) := NextLink(fs, done, todo).value;
            NextLink(fs, done, todo + tail) == Some((d, t + tail))
    decreases |todo|
  {
    var c, rest := todo[0], todo[1..];
    var p := done + [c];
    assert (todo + tail)[0] == c && (todo + tail)[1..] == rest + tail;
    if c == "" || c == "." {
      NextLinkAppend(fs, done, rest, tail);
    } else if c == ".." {
      NextLinkAppend(fs, if done == [] then [] else Parent(done), rest, tail);
    } else if fs[p].Dir? {
      NextLinkAppend(fs, p, rest, tail);
    } else {
      assert Split(fs[p].text, '/') + rest + tail == Split(fs[p].text, '/') + (rest + tail);
    }
  }

  lemma {:induction false} AfterLinksAppend(fs: Nodes, done: Path, todo: seq<string>, tail: seq<string>, n: nat)
    requires AfterLinks(fs, done, todo, n).Some?
    ensures var (d, t) := AfterLinks(fs, done, todo, n).value;
            AfterLinks(fs, done, todo + tail, n) == Some((d, t + tail))
    decreases n
  {
    if n > 0 {
      var next := NextLink(fs, done, todo).value;
      NextLinkAppend(fs, done, todo, tail);
      AfterLinksAppend(fs, next.0, next.1, tail, n - 1);
    }
  }

  /** A cyclic chain of links fails whatever the limit: a walk that comes back to its position, with
      the same or with more names still to follow, never resolves. */
  lemma {:induction false} CyclesFail(fs: Nodes, done: Path, todo: seq<string>, more: seq<string>, n: nat,
                                      tail: seq<string>, links: nat, limit: nat)
    requires links <= limit && n > 0
    requires AfterLinks(fs, done, todo, n) == Some((done, todo + more))
    ensures Walk(fs, done, todo + tail, links, limit) == Stuck(ELOOP)
    decreases limit - links
  {
    AfterLinksAppend(fs, done, todo, tail, n);
    WalkAfterLinks(fs, done, todo + tail, n, links, limit);
    if links + n <= limit {
      CyclesFail(fs, done, todo, more, n, more + tail, links + n, limit);
      assert todo + more + tail == todo + (more + tail);
    }
  }

  /** A link whose resolution runs into a cycle, at once or after `k` other links, cannot be archived. */
  lemma {:induction false} CyclicLinkFails(fs: Nodes, loc: Path, k: nat, done: Path, todo: seq<string>,
                                           more: seq<string>, n: nat, tail: seq<string>)
    requires loc in fs && fs[loc].Link? && n > 0
    requires AfterLinks(fs, [], loc, k) == Some((done, todo + tail))
    requires AfterLinks(fs, done, todo, n) == Some((done, todo + more))
    ensures Walk(fs, [], loc, 0, EVAL_LINKS) == Stuck(ELOOP)
    ensures EvalSymlinks(fs, loc).None? && !Archivable(fs, loc)
  {
    WalkAfterLinks(fs, [], loc, k, 0, EVAL_LINKS);
    if k <= EVAL_LINKS {
      CyclesFail(fs, done, todo, more, n, tail, k, EVAL_LINKS);
    }
  }

  /** The way to a link in a tree: its own text is what is followed next. */
  lemma {:induction false} FirstLink(fs: Nodes, dir: Path, n: string)
    requires Tree(fs) && IsName(n) && dir + [n] in fs && fs[dir + [n]].Link?
    ensures IsDirectory(fs, dir)
    ensures var text := fs[dir + [n]].text;
            AfterLinks(fs, dir, [n], 1) == Some((if Rooted(text) then [] else dir, Split(text, '/')))
  {
    var text := fs[dir + [n]].text;
    assert Parent(dir + [n]) == dir;
    assert [n][1..] == [] && Split(text, '/') + [] == Split(text, '/');
    var next := NextLink(fs, dir, [n]).value;
    assert AfterLinks(fs, dir, [n], 1) == AfterLinks(fs, next.0, next.1, 0);
  }

  /** The smallest cycles: a link whose text starts with its own name never resolves, whatever
      follows the name and wherever the link is met. */
  lemma {:induction false} SelfLinkFails(fs: Nodes, dir: Path, n: string, tail: seq<string>, links: nat, limit: nat)
    requires Tree(fs) && IsName(n) && dir + [n] in fs && fs[dir + [n]].Link? && links <= limit
    requires Split(fs[dir + [n]].text, '/')[0] == n
    ensures Walk(fs, dir, [n] + tail, links, limit) == Stuck(ELOOP)
    ensures EvalSymlinks(fs, dir + [n]).None? && !Archivable(fs, dir + [n])
  {
    var parts := Split(fs[dir + [n]].text, '/');
    FirstLink(fs, dir, n);
    assert parts == [n] + parts[1..];
    CyclesFail(fs, dir, [n], parts[1..], 1, tail, links, limit);
    CyclesFail(fs, dir, [n], parts[1..], 1, [], 0, EVAL_LINKS);
    ResolveFromDirectory(fs, dir, [n], EVAL_LINKS);
    assert [n] + [] == [n];
  }

  /** A limit that the walk does not reach does not matter. */
  lemma {:induction false} WalkLowerLimit(fs: Nodes, done: Path, todo: seq<string>, links: nat, low: nat, high: nat)
    requires links <= low <= high
    requires var w := Walk(fs, done, todo, links, high); w.Found? && w.links <= low
    ensures Walk(fs, done, todo, links, low) == Walk(fs, done, todo, links, high)
    decreases high - links, |todo|
  {
    if todo != [] {
      var c, rest := todo[0], todo[1..];
      var p := done + [c];
      if c == "" || c == "." {
        WalkLowerLimit(fs, done, rest, links, low, high);
      } else if c == ".." {
        WalkLowerLimit(fs, if done == [] then [] else Parent(done), rest, links, low, high);
      } else if fs[p].Dir? {
        WalkLowerLimit(fs, p, rest, links, low, high);
      } else if fs[p].Link? {
        var text := fs[p].text;
        var from, more := if Rooted(text) then [] else done, Split(text, '/') + rest;
        LinksOnlyAdd(fs, from, more, links + 1, high);
        WalkLowerLimit(fs, from, more, links + 1, low, high);
      }
    }
  }

  lemma {:induction false} LinksOnlyAdd(fs: Nodes, done: Path, todo: seq<string>, links: nat, limit: nat)
    requires links <= limit
    ensures var w := Walk(fs, done, todo, links, limit); w.Found? ==> links <= w.links <= limit
    decreases limit - links, |todo|
  {
    if todo != [] {
      var c, rest := todo[0], todo[1..];
      var p := done + [c];
      if c == "" || c == "." {
        LinksOnlyAdd(fs, done, rest, links, limit);
      } else if c == ".." {
        LinksOnlyAdd(fs, if done == [] then [] else Parent(done), rest, links, limit);
      } else if p in fs && fs[p].Dir? {
        LinksOnlyAdd(fs, p, rest, links, limit);
      } else if p in fs && fs[p].Link? && links < limit {
        var text := fs[p].text;
        LinksOnlyAdd(fs, if Rooted(text) then [] else done, Split(text, '/') + rest, links + 1, limit);
      }
    }
  }

  /** Not every resolvable chain of links can be archived: EvalSymlinks follows 255 links, but the
      object is then opened by the kernel, which follows 40. A link is archived exactly when its
      resolution takes at most 40 links and ends at an object that opens. */
  lemma {:induction false} LinkArchivedIff(fs: Nodes, loc: Path)
    requires Tree(fs) && loc in fs && fs[loc].Link?
    ensures Archivable(fs, loc) <==>
            var w := Walk(fs, [], loc, 0, EVAL_LINKS);
            w.Found? && w.links <= KERNEL_LINKS && w.loc in fs && fs[w.loc] != Other(false)
  {
    LocationsAreNames(fs, loc);
    WalkEnds(fs, [], loc, 0, EVAL_LINKS);
    var w := Walk(fs, [], loc, 0, EVAL_LINKS);
    if w.Found? && w.links <= KERNEL_LINKS {
      WalkLowerLimit(fs, [], loc, 0, KERNEL_LINKS, EVAL_LINKS);
    }
    if Resolve(fs, loc).Found? {
      LinksOnlyAdd(fs, [], loc, 0, KERNEL_LINKS);
      WalkRaiseLimit(fs, [], loc, 0, KERNEL_LINKS, EVAL_LINKS);
    }
  }

  // ---------------------------------------------------------------- long chains

  /** Each name in the directory is a link to the next one, and the last is a regular file. */
  ghost predicate Chain(fs: Nodes, dir: Path, names: seq<string>)
  {
    && names != []
    && (forall k :: 0 <= k < |names| ==> IsName(names[k]) && dir + [names[k]] in fs)
    && (forall k :: 0 <= k < |names| - 1 ==> fs[dir + [names[k]]] == Link(names[k + 1]))
    && fs[dir + [Last(names)]].File?
  }

  /** A chain is followed link by link: to its file if the limit allows, and nowhere otherwise. */
  lemma {:induction false} ChainWalk(fs: Nodes, dir: Path, names: seq<string>, links: nat, limit: nat)
    requires Chain(fs, dir, names) && links <= limit
    ensures Walk(fs, dir, [names[0]], links, limit) ==
            if links + |names| - 1 <= limit then Found(dir + [Last(names)], links + |names| - 1)
            else Stuck(ELOOP)
    decreases |names|
  {
    var n := names[0];
    assert IsName(n) && dir + [n] in fs;
    if |names| > 1 {
      var text := names[1];
      assert fs[dir + [n]] == Link(text) && IsName(text);
      SplitWithoutSeparator(text, '/');
      assert Split(text, '/') + [] == [text];
      assert text[0] in text;
      if links < limit {
        ChainOfRest(fs, dir, names);
        ChainWalk(fs, dir, names[1..], links + 1, limit);
      }
    }
  }

  lemma {:induction false} ChainOfRest(fs: Nodes, dir: Path, names: seq<string>)
    requires Chain(fs, dir, names) && |names| > 1
    ensures Chain(fs, dir, names[1..]) && Last(names[1..]) == Last(names)
  {
    var rest := names[1..];
    assert forall k :: 0 <= k < |rest| ==> rest[k] == names[k + 1];
  }

  /** A chain resolves for EvalSymlinks up to 255 links, and can be archived only up to 40. */
  lemma {:induction false} ChainArchivedIff(fs: Nodes, dir: Path, names: seq<string>)
    requires Tree(fs) && IsDirectory(fs, dir) && Chain(fs, dir, names)
    ensures dir + [names[0]] in fs
    ensures EvalSymlinks(fs, dir + [names[0]]).Some? <==> |names| - 1 <= 255
    ensures Archivable(fs, dir + [names[0]]) <==> |names| - 1 <= 40
  {
    var first := dir + [names[0]];
    ResolveFromDirectory(fs, dir, [names[0]], EVAL_LINKS);
    ChainWalk(fs, dir, names, 0, EVAL_LINKS);
    if |names| > 1 {
      LinkArchivedIff(fs, first);
    }
  }

  function Repeated(k: nat): (name: string)
    ensures |name| == k + 1
    ensures forall i :: 0 <= i < |name| ==> name[i] == 'l'
  {
    seq(k + 1, i => 'l')
  }

  /** A directory with one file and a chain of n links to it. */
  function ChainOf(n: nat): Nodes
  {
    if n == 0 then OneFile(Repeated(0)) else ChainOf(n - 1)[[Repeated(n)] := Link(Repeated(n - 1))]
  }

  function OneFile(name: string): Nodes
  {
    map[[] := Dir(0), [name] := File(0, [])]
  }

  lemma RepeatedIsName(n: nat)
    ensures IsName(Repeated(n))
  {
    assert Repeated(n)[0] == 'l';
  }

  /** One more link in front of a chain. */
  lemma {:induction false} ChainLonger(before: Nodes, after: Nodes, n: string, names: seq<string>)
    requires Tree(before) && Chain(before, [], names) && IsName(n) && [n] !in before
    requires after == before[[n] := Link(names[0])]
    ensures Tree(after) && Chain(after, [], [n] + names)
  {
    assert [] + [n] == [n] && Parent([n]) == [];
    forall q | q in after && q != []
      ensures IsName(Last(q)) && IsDirectory(after, Parent(q))
    {
      if q != [n] { assert IsDirectory(before, Parent(q)) && Parent(q) != [n]; }
    }
    forall k | 0 <= k < |names|
      ensures [] + [names[k]] in after && after[[] + [names[k]]] == before[[] + [names[k]]]
    {
      assert [] + [names[k]] == [names[k]];
    }
    var longer := [n] + names;
    assert Last(longer) == Last(names);
    assert forall k :: 0 < k < |longer| ==> longer[k] == names[k - 1];
  }

  lemma {:induction false} FileAlone(n: string)
    requires IsName(n)
    ensures Tree(OneFile(n)) && Chain(OneFile(n), [], [n])
  {
    var fs := OneFile(n);
    var names := [n];
    assert IsDirectory(fs, []);
    forall q | q in fs && q != []
      ensures IsName(Last(q)) && IsDirectory(fs, Parent(q))
    {
      assert q == [n] && Parent(q) == [];
    }
    assert [] + [names[0]] == [n] && Last(names) == n;
    assert fs[[n]].File?;
  }

  lemma {:induction false} NotInShorterChain(n: nat, m: nat)
    requires n < m
    ensures [Repeated(m)] !in ChainOf(n)
  {
    assert |[Repeated(m)][0]| != |[Repeated(n)][0]|;
    if n > 0 { NotInShorterChain(n - 1, m); }
  }

  lemma {:induction false} ChainOfStep(n: nat, names: seq<string>)
    requires n > 0 && Tree(ChainOf(n - 1)) && Chain(ChainOf(n - 1), [], names) && names[0] == Repeated(n - 1)
    ensures Tree(ChainOf(n)) && Chain(ChainOf(n), [], [Repeated(n)] + names)
  {
    RepeatedIsName(n);
    NotInShorterChain(n - 1, n);
    ChainLonger(ChainOf(n - 1), ChainOf(n), Repeated(n), names);
  }

  lemma {:induction false} ChainOfHolds(n: nat) returns (names: seq<string>)
    ensures Tree(ChainOf(n)) && Chain(ChainOf(n), [], names)
    ensures |names| == n + 1 && names[0] == Repeated(n)
  {
    if n == 0 {
      names := [Repeated(0)];
      RepeatedIsName(0);
      FileAlone(Repeated(0));
    } else {
      var shorter := ChainOfHolds(n - 1);
      ChainOfStep(n, shorter);
      names := [Repeated(n)] + shorter;
    }
  }

  /** Such trees exist: a link at the head of 41 to 255 links resolves and cannot be archived. */
  lemma {:induction false} LongChainFails(n: nat)
    requires 41 <= n <= 255
    ensures var fs, loc := ChainOf(n), [Repeated(n)];
            && Tree(fs) && loc in fs && fs[loc].Link?
            && EvalSymlinks(fs, loc).Some? && !Archivable(fs, loc)
  {
    var names := ChainOfHolds(n);
    assert [] + [names[0]] == [Repeated(n)];
    ChainArchivedIff(ChainOf(n), [], names);
  }
}
