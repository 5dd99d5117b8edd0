/** Which resolutions never end: those, and only those, that run into a cycle of links. */
module Cycles {
  import opened Options
  import opened Text
  import opened Filepath
  import opened Disk
  import opened Chains

  /** The walk comes to the names `t` in `d`, with `tail` behind them, after `k` links, and from there,
      after `n` links, to the same names again, with `more` behind them. */
  predicate CycleAt(fs: Nodes, done: Path, todo: seq<string>, k: nat, d: Path, t: seq<string>, tail: seq<string>,
                    n: nat, more: seq<string>)
  {
    && n > 0
    && AfterLinks(fs, done, todo, k) == Some((d, t + tail))
    && AfterLinks(fs, d, t, n) == Some((d, t + more))
  }

  ghost predicate RunsIntoCycle(fs: Nodes, done: Path, todo: seq<string>)
  {
    exists k: nat, d, t, tail, n: nat, more :: CycleAt(fs, done, todo, k, d, t, tail, n, more)
  }

  /** The walk meets one link after the other without end. */
  ghost predicate Endless(fs: Nodes, done: Path, todo: seq<string>)
  {
    forall n: nat :: AfterLinks(fs, done, todo, n).Some?
  }

  // ---------------------------------------------------------------- links on the way

  /** The next link a walk meets, and the names that follow it. */
  function Meets(fs: Nodes, done: Path, todo: seq<string>): Option<(Path, seq<string>)>
    decreases |todo|
  {
    if todo == [] then None
    else
      var c, rest := todo[0], todo[1..];
      var p := done + [c];
      if c == "" || c == "." then Meets(fs, done, rest)
      else if c == ".." then Meets(fs, if done == [] then [] else Parent(done), rest)
      else if p !in fs then None
      else match fs[p]
        case Dir(_) => Meets(fs, p, rest)
        case Link(_) => Some((p, rest))
        case _ => None
  }

  /** Where a walk goes on from a link. */
  function Beyond(fs: Nodes, link: Path): (Path, seq<string>)
    requires link != [] && link in fs && fs[link].Link?
  {
    (if Rooted(fs[link].text) then [] else Parent(link), Split(fs[link].text, '/'))
  }

  lemma {:induction false} MeetsNext(fs: Nodes, done: Path, todo: seq<string>)
    ensures Meets(fs, done, todo).Some? <==> NextLink(fs, done, todo).Some?
    ensures Meets(fs, done, todo).Some? ==>
              var (link, rest) := Meets(fs, done, todo).value;
              && link != [] && link in fs && fs[link].Link? && |rest| < |todo|
              && var (d, t) := Beyond(fs, link); NextLink(fs, done, todo) == Some((d, t + rest))
    decreases |todo|
  {
    if todo != [] {
      var c, rest := todo[0], todo[1..];
      var p := done + [c];
      assert Parent(p) == done;
      if c == "" || c == "." {
        MeetsNext(fs, done, rest);
      } else if c == ".." {
        MeetsNext(fs, if done == [] then [] else Parent(done), rest);
      } else if p in fs && fs[p].Dir? {
        MeetsNext(fs, p, rest);
      }
    }
  }

  /** Names behind the next link can be taken away. */
  lemma {:induction false} MeetsWithout(fs: Nodes, done: Path, todo: seq<string>, tail: seq<string>)
    requires Meets(fs, done, todo + tail).Some?
    requires |Meets(fs, done, todo + tail).value.1| >= |tail|
    ensures Meets(fs, done, todo).Some?
    ensures var (link, rest) := Meets(fs, done, todo).value;
            Meets(fs, done, todo + tail) == Some((link, rest + tail))
    decreases |todo|
  {
    if todo == [] {
      assert todo + tail == tail;
      MeetsNext(fs, done, tail);
    } else {
      var c, rest := todo[0], todo[1..];
      var p := done + [c];
      assert (todo + tail)[0] == c && (todo + tail)[1..] == rest + tail;
      if c == "" || c == "." {
        MeetsWithout(fs, done, rest, tail);
      } else if c == ".." {
        MeetsWithout(fs, if done == [] then [] else Parent(done), rest, tail);
      } else if fs[p].Dir? {
        MeetsWithout(fs, p, rest, tail);
      }
    }
  }

  /** How many names follow the n-th link of a walk. */
  function Height(fs: Nodes, done: Path, todo: seq<string>, n: nat): nat
  {
    match AfterLinks(fs, done, todo, n)
    case None => 0
    case Some(at) =>
      match Meets(fs, at.0, at.1)
      case None => 0
      case Some(met) => |met.1|
  }

  /** As long as the names at the end are not reached, the walk does not depend on them. */
  lemma {:induction false} AfterLinksWithout(fs: Nodes, done: Path, todo: seq<string>, tail: seq<string>, n: nat)
    requires AfterLinks(fs, done, todo + tail, n).Some?
    requires forall j: nat :: j < n ==> Height(fs, done, todo + tail, j) >= |tail|
    ensures AfterLinks(fs, done, todo, n).Some?
    ensures var (d, t) := AfterLinks(fs, done, todo, n).value;
            AfterLinks(fs, done, todo + tail, n) == Some((d, t + tail))
    decreases n
  {
    if n > 0 {
      assert Height(fs, done, todo + tail, 0) >= |tail|;
      MeetsNext(fs, done, todo + tail);
      MeetsWithout(fs, done, todo, tail);
      MeetsNext(fs, done, todo);
      var next, shorter := NextLink(fs, done, todo + tail).value, NextLink(fs, done, todo).value;
      var (link, rest) := Meets(fs, done, todo).value;
      assert Beyond(fs, link).1 + (rest + tail) == Beyond(fs, link).1 + rest + tail;
      assert next == (shorter.0, shorter.1 + tail);
      forall j: nat | j < n - 1
        ensures Height(fs, next.0, next.1, j) >= |tail|
      {
        assert Height(fs, done, todo + tail, j + 1) >= |tail|;
      }
      AfterLinksWithout(fs, shorter.0, shorter.1, tail, n - 1);
    }
  }

  lemma {:induction false} AfterLinksTogether(fs: Nodes, done: Path, todo: seq<string>, n: nat, m: nat)
    requires AfterLinks(fs, done, todo, n).Some?
    ensures var (d, t) := AfterLinks(fs, done, todo, n).value;
            && AfterLinks(fs, done, todo, n + m) == AfterLinks(fs, d, t, m)
            && Height(fs, done, todo, n + m) == Height(fs, d, t, m)
    decreases n
  {
    if n > 0 {
      var next := NextLink(fs, done, todo).value;
      AfterLinksTogether(fs, next.0, next.1, n - 1, m);
    }
  }

  // ---------------------------------------------------------------- an endless walk runs into a cycle

  /** From every point on there is one where the fewest names follow the link. */
  lemma {:induction false} LowestFrom(fs: Nodes, done: Path, todo: seq<string>, start: nat, n: nat) returns (k: nat)
    requires n >= start
    ensures k >= start
    ensures forall j: nat :: j >= start ==> Height(fs, done, todo, k) <= Height(fs, done, todo, j)
    decreases Height(fs, done, todo, n)
  {
    if exists j: nat :: j >= start && Height(fs, done, todo, j) < Height(fs, done, todo, n) {
      var j: nat :| j >= start && Height(fs, done, todo, j) < Height(fs, done, todo, n);
      k := LowestFrom(fs, done, todo, start, j);
    } else {
      k := n;
    }
  }

  /** From here on the names that follow the link are never reached. */
  ghost predicate Low(fs: Nodes, done: Path, todo: seq<string>, k: nat)
  {
    forall j: nat :: j >= k ==> Height(fs, done, todo, k) <= Height(fs, done, todo, j)
  }

  ghost predicate Ascending(ks: seq<nat>)
  {
    forall i, j :: 0 <= i < j < |ks| ==> ks[i] < ks[j]
  }

  lemma {:induction false} LowPoints(fs: Nodes, done: Path, todo: seq<string>, count: nat) returns (ks: seq<nat>)
    ensures |ks| == count && Ascending(ks)
    ensures forall i :: 0 <= i < count ==> Low(fs, done, todo, ks[i])
  {
    if count == 0 {
      ks := [];
    } else {
      ks := LowPoints(fs, done, todo, count - 1);
      var start := if ks == [] then 0 else ks[|ks| - 1] + 1;
      var k := LowestFrom(fs, done, todo, start, start);
      assert Low(fs, done, todo, k);
      assert forall i :: 0 <= i < |ks| ==> ks[i] < start;
      ks := ks + [k];
    }
  }

  /** More members than the set has cannot all be different. */
  lemma {:induction false} SomeRepeat(xs: seq<Path>, s: set<Path>) returns (i: nat, j: nat)
    requires |xs| > |s| && forall k :: 0 <= k < |xs| ==> xs[k] in s
    ensures i < j < |xs| && xs[i] == xs[j]
  {
    var n := |xs| - 1;
    if xs[n] in xs[..n] {
      i :| 0 <= i < n && xs[..n][i] == xs[n];
      j := n;
    } else {
      assert forall k :: 0 <= k < n ==> xs[..n][k] == xs[k];
      i, j := SomeRepeat(xs[..n], s - {xs[n]});
    }
  }

  /** The link met after n others. */
  function LinkMet(fs: Nodes, done: Path, todo: seq<string>, n: nat): Path
    requires AfterLinks(fs, done, todo, n).Some?
    requires var (d, t) := AfterLinks(fs, done, todo, n).value; Meets(fs, d, t).Some?
  {
    var (d, t) := AfterLinks(fs, done, todo, n).value;
    Meets(fs, d, t).value.0
  }

  /** Every stage of an endless walk meets a link, and goes on beyond it. */
  lemma {:induction false} EndlessMeets(fs: Nodes, done: Path, todo: seq<string>, n: nat) returns (rest: seq<string>)
    requires Endless(fs, done, todo)
    ensures var (d, t) := AfterLinks(fs, done, todo, n).value; Meets(fs, d, t).Some?
    ensures var link := LinkMet(fs, done, todo, n);
            && link != [] && link in fs && fs[link].Link? && Height(fs, done, todo, n) == |rest|
            && AfterLinks(fs, done, todo, n + 1) == Some((Beyond(fs, link).0, Beyond(fs, link).1 + rest))
  {
    var (d, t) := AfterLinks(fs, done, todo, n).value;
    AfterLinksTogether(fs, done, todo, n, 1);
    assert AfterLinks(fs, done, todo, n + 1).Some?;
    assert AfterLinks(fs, d, t, 1).Some?;
    MeetsNext(fs, d, t);
    rest := Meets(fs, d, t).value.1;
    var next := NextLink(fs, d, t).value;
    assert AfterLinks(fs, d, t, 1) == AfterLinks(fs, next.0, next.1, 0);
  }

  /** The same link at two low points closes a cycle. */
  lemma {:induction false} SameLinkCycles(fs: Nodes, done: Path, todo: seq<string>, a: nat, b: nat)
    requires Endless(fs, done, todo) && a < b && Low(fs, done, todo, a)
    requires var (d, t) := AfterLinks(fs, done, todo, a).value; Meets(fs, d, t).Some?
    requires var (d, t) := AfterLinks(fs, done, todo, b).value; Meets(fs, d, t).Some?
    requires LinkMet(fs, done, todo, a) == LinkMet(fs, done, todo, b)
    ensures RunsIntoCycle(fs, done, todo)
  {
    var tail := EndlessMeets(fs, done, todo, a);
    var rest := EndlessMeets(fs, done, todo, b);
    var (d, t) := Beyond(fs, LinkMet(fs, done, todo, a));
    var n := b - a;
    assert AfterLinks(fs, done, todo, a + 1) == Some((d, t + tail));
    AfterLinksTogether(fs, done, todo, a + 1, n);
    assert AfterLinks(fs, d, t + tail, n) == Some((d, t + rest));
    forall j: nat | j < n
      ensures Height(fs, d, t + tail, j) >= |tail|
    {
      AfterLinksTogether(fs, done, todo, a + 1, j);
      assert Height(fs, done, todo, a) <= Height(fs, done, todo, a + 1 + j);
    }
    AfterLinksWithout(fs, d, t, tail, n);
    assert |rest| >= |tail|;
    var more := EndsAlike(t, rest, AfterLinks(fs, d, t, n).value.1, tail);
    assert CycleAt(fs, done, todo, a + 1, d, t, tail, n, more);
  }

  lemma EndsAlike(t: seq<string>, rest: seq<string>, u: seq<string>, tail: seq<string>) returns (more: seq<string>)
    requires t + rest == u + tail && |rest| >= |tail|
    ensures u == t + more
  {
    more := rest[..|rest| - |tail|];
    assert u == (u + tail)[..|u|] == (t + rest)[..|u|];
  }

  lemma {:induction false} EndlessCycles(fs: Nodes, done: Path, todo: seq<string>)
    requires Endless(fs, done, todo)
    ensures RunsIntoCycle(fs, done, todo)
  {
    var ks := LowPoints(fs, done, todo, |fs.Keys| + 1);
    forall k: nat
      ensures AfterLinks(fs, done, todo, k).Some?
      ensures var (d, t) := AfterLinks(fs, done, todo, k).value; Meets(fs, d, t).Some?
      ensures LinkMet(fs, done, todo, k) in fs.Keys
    {
      var rest := EndlessMeets(fs, done, todo, k);
    }
    var links := seq(|ks|, i requires 0 <= i < |ks| => LinkMet(fs, done, todo, ks[i]));
    var i, j := SomeRepeat(links, fs.Keys);
    SameLinkCycles(fs, done, todo, ks[i], ks[j]);
  }

  // ---------------------------------------------------------------- the theorem

  /** A walk that is stopped by its limit has met one link more than the limit allows. */
  lemma {:induction false} StoppedByLimit(fs: Nodes, done: Path, todo: seq<string>, links: nat, limit: nat)
    requires links <= limit && Walk(fs, done, todo, links, limit) == Stuck(ELOOP)
    ensures AfterLinks(fs, done, todo, limit - links + 1).Some?
    decreases limit - links
  {
    if NextLink(fs, done, todo).None? { NoLinkNoLimit(fs, done, todo, links, limit); }
    WalkToNextLink(fs, done, todo, links, limit);
    if links < limit {
      var next := NextLink(fs, done, todo).value;
      StoppedByLimit(fs, next.0, next.1, links + 1, limit);
    }
  }

  lemma {:induction false} NoLinkNoLimit(fs: Nodes, done: Path, todo: seq<string>, links: nat, limit: nat)
    requires links <= limit && NextLink(fs, done, todo).None?
    ensures Walk(fs, done, todo, links, limit) != Stuck(ELOOP)
    decreases |todo|
  {
    if todo != [] {
      var c, rest := todo[0], todo[1..];
      var p := done + [c];
      if c == "" || c == "." {
        NoLinkNoLimit(fs, done, rest, links, limit);
      } else if c == ".." {
        NoLinkNoLimit(fs, if done == [] then [] else Parent(done), rest, links, limit);
      } else if p in fs && fs[p].Dir? {
        NoLinkNoLimit(fs, p, rest, links, limit);
      }
    }
  }

  lemma {:induction false} FewerLinks(fs: Nodes, done: Path, todo: seq<string>, n: nat, m: nat)
    requires n <= m && AfterLinks(fs, done, todo, m).Some?
    ensures AfterLinks(fs, done, todo, n).Some?
    decreases n
  {
    if n > 0 {
      var next := NextLink(fs, done, todo).value;
      FewerLinks(fs, next.0, next.1, n - 1, m - 1);
    }
  }

  /** No limit is high enough. */
  ghost predicate Loops(fs: Nodes, done: Path, todo: seq<string>)
  {
    forall limit: nat :: Refused(fs, done, todo, limit)
  }

  predicate Refused(fs: Nodes, done: Path, todo: seq<string>, limit: nat)
  {
    Walk(fs, done, todo, 0, limit) == Stuck(ELOOP)
  }

  lemma {:induction false} CycleIsRefused(fs: Nodes, done: Path, todo: seq<string>, limit: nat)
    requires RunsIntoCycle(fs, done, todo)
    ensures Refused(fs, done, todo, limit)
  {
    var k: nat, d, t, tail, n: nat, more :| CycleAt(fs, done, todo, k, d, t, tail, n, more);
    WalkAfterLinks(fs, done, todo, k, 0, limit);
    if k <= limit { CyclesFail(fs, d, t, more, n, tail, k, limit); }
  }

  /** A resolution is refused for too many links under every limit if and only if it runs into a
      cycle of links, possibly a growing one, at once or after some other links. */
  lemma {:induction false} LoopsIff(fs: Nodes, done: Path, todo: seq<string>)
    ensures Loops(fs, done, todo) <==> RunsIntoCycle(fs, done, todo)
  {
    if Loops(fs, done, todo) {
      forall n: nat
        ensures AfterLinks(fs, done, todo, n).Some?
      {
        assert Refused(fs, done, todo, n);
        StoppedByLimit(fs, done, todo, 0, n);
        FewerLinks(fs, done, todo, n, n + 1);
      }
      EndlessCycles(fs, done, todo);
    }
    if RunsIntoCycle(fs, done, todo) {
      forall limit: nat
        ensures Refused(fs, done, todo, limit)
      {
        CycleIsRefused(fs, done, todo, limit);
      }
    }
  }
}
