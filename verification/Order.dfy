/** The order of a directory walk: file names by their characters, paths by their names. A
    directory comes right before everything below it. */
module Order {
  import opened Filepath

  /** Character order on names, as Go compares strings. */
  predicate NameLess(a: string, b: string)
  {
    b != "" && (a == "" || a[0] < b[0] || (a[0] == b[0] && NameLess(a[1..], b[1..])))
  }

  /** Name-wise order on paths. */
  predicate Before(p: Path, q: Path)
  {
    q != [] && (p == [] || NameLess(p[0], q[0]) || (p[0] == q[0] && Before(p[1..], q[1..])))
  }

  lemma {:induction false} NameLessIrreflexive(a: string)
    ensures !NameLess(a, a)
  {
    if a != "" { NameLessIrreflexive(a[1..]); }
  }

  lemma {:induction false} NameLessTransitive(a: string, b: string, c: string)
    requires NameLess(a, b) && NameLess(b, c)
    ensures NameLess(a, c)
  {
    if a != "" && a[0] == b[0] && b[0] == c[0] { NameLessTransitive(a[1..], b[1..], c[1..]); }
  }

  lemma {:induction false} NameLessTotal(a: string, b: string)
    ensures a == b || NameLess(a, b) || NameLess(b, a)
  {
    if a != "" && b != "" && a[0] == b[0] {
      NameLessTotal(a[1..], b[1..]);
      assert a == [a[0]] + a[1..] && b == [b[0]] + b[1..];
    }
  }

  /** Which of two names comes first is decided by the first character in which they differ; a name
      comes before its continuations. */
  lemma {:induction false} NameLessMeans(a: string, b: string, k: nat)
    requires k <= |a| && k <= |b| && a[..k] == b[..k]
    requires k == |a| || k == |b| || a[k] != b[k]
    ensures NameLess(a, b) <==> k < |b| && (k == |a| || a[k] < b[k])
  {
    if k > 0 {
      assert a[0] == a[..k][0] == b[..k][0] == b[0];
      assert a[1..][..k - 1] == a[..k][1..] == b[..k][1..] == b[1..][..k - 1];
      NameLessMeans(a[1..], b[1..], k - 1);
    }
  }

  lemma {:induction false} BeforeIrreflexive(p: Path)
    ensures !Before(p, p)
  {
    if p != [] {
      NameLessIrreflexive(p[0]);
      BeforeIrreflexive(p[1..]);
    }
  }

  lemma {:induction false} BeforeTransitive(p: Path, q: Path, r: Path)
    requires Before(p, q) && Before(q, r)
    ensures Before(p, r)
  {
    if p != [] {
      if NameLess(p[0], q[0]) && NameLess(q[0], r[0]) {
        NameLessTransitive(p[0], q[0], r[0]);
      } else if p[0] == q[0] && q[0] == r[0] {
        BeforeTransitive(p[1..], q[1..], r[1..]);
      }
    }
  }

  lemma {:induction false} BeforeTotal(p: Path, q: Path)
    ensures p == q || Before(p, q) || Before(q, p)
  {
    if p != [] && q != [] {
      NameLessTotal(p[0], q[0]);
      BeforeTotal(p[1..], q[1..]);
      assert p == [p[0]] + p[1..] && q == [q[0]] + q[1..];
    }
  }

  /** A common beginning does not matter; a proper prefix comes first. */
  lemma {:induction false} BeforeUnder(dir: Path, p: Path, q: Path)
    ensures Before(dir + p, dir + q) <==> Before(p, q)
  {
    if dir == [] {
      assert dir + p == p && dir + q == q;
    } else {
      NameLessIrreflexive(dir[0]);
      assert (dir + p)[1..] == dir[1..] + p && (dir + q)[1..] == dir[1..] + q;
      BeforeUnder(dir[1..], p, q);
    }
  }

  /** Paths that part at position k are ordered by their names there. */
  lemma {:induction false} BeforeAtFork(p: Path, q: Path, k: nat)
    requires k < |p| && k < |q| && p[..k] == q[..k] && NameLess(p[k], q[k])
    ensures Before(p, q) && !Before(q, p)
  {
    assert p == p[..k] + p[k..] && q == p[..k] + q[k..];
    BeforeUnder(p[..k], p[k..], q[k..]);
    if Before(q, p) {
      BeforeTransitive(p, q, p);
      BeforeIrreflexive(p);
    }
  }

  /** Which of two paths comes first is decided by the first name in which they differ, and there by
      the first character; a path comes before everything under it. */
  lemma {:induction false} BeforeMeans(p: Path, q: Path, k: nat)
    requires k <= |p| && k <= |q| && p[..k] == q[..k]
    requires k == |p| || k == |q| || p[k] != q[k]
    ensures Before(p, q) <==> k < |q| && (k == |p| || NameLess(p[k], q[k]))
  {
    assert p == p[..k] + p[k..] && q == q[..k] + q[k..];
    BeforeUnder(p[..k], p[k..], q[k..]);
  }

  function CommonStart<T(==)>(a: seq<T>, b: seq<T>): (k: nat)
    ensures k <= |a| && k <= |b| && a[..k] == b[..k]
    ensures k == |a| || k == |b| || a[k] != b[k]
  {
    if a == [] || b == [] || a[0] != b[0] then 0
    else
      var k := CommonStart(a[1..], b[1..]);
      assert a[..k + 1] == [a[0]] + a[1..][..k] && b[..k + 1] == [b[0]] + b[1..][..k];
      k + 1
  }

  /** In a sorted list an earlier path leads to the later one, or parts from it at a name whose first
      differing character is smaller, or which ends there. */
  lemma {:induction false} SortedMeans(ps: seq<Path>, i: nat, j: nat) returns (k: nat, m: nat)
    requires Sorted(ps) && i < j < |ps|
    ensures k < |ps[j]| && k <= |ps[i]| && ps[i][..k] == ps[j][..k]
    ensures k < |ps[i]| ==>
              var a, b := ps[i][k], ps[j][k];
              m < |b| && m <= |a| && a[..m] == b[..m] && (m == |a| || a[m] < b[m])
  {
    var p, q := ps[i], ps[j];
    assert Before(p, q);
    k, m := CommonStart(p, q), 0;
    BeforeMeans(p, q, k);
    if k < |p| {
      m := CommonStart(p[k], q[k]);
      NameLessMeans(p[k], q[k], m);
    }
  }

  lemma {:induction false} PrefixBefore(p: Path, q: Path)
    requires p <= q && p != q
    ensures Before(p, q) && !Before(q, p)
  {
    assert q == p + q[|p|..] && p == p + [];
    BeforeUnder(p, [], q[|p|..]);
    BeforeUnder(p, q[|p|..], []);
  }

  // ---------------------------------------------------------------- enumerations

  ghost predicate Sorted(ps: seq<Path>)
  {
    forall i, j :: 0 <= i < j < |ps| ==> Before(ps[i], ps[j])
  }

  /** `ps` lists the set in walk order, every path once. */
  ghost predicate Enumerates(ps: seq<Path>, s: set<Path>)
  {
    && Sorted(ps)
    && (forall i :: 0 <= i < |ps| ==> ps[i] in s)
    && (forall p :: p in s ==> p in ps)
  }

  lemma {:induction false} SortedDistinct(ps: seq<Path>, i: nat, j: nat)
    requires Sorted(ps) && i < |ps| && j < |ps|
    ensures ps[i] == ps[j] ==> i == j
    ensures Before(ps[i], ps[j]) ==> i < j
  {
    BeforeIrreflexive(ps[i]);
    if j < i && Before(ps[i], ps[j]) {
      BeforeTransitive(ps[i], ps[j], ps[i]);
    }
    if i == j { BeforeIrreflexive(ps[i]); }
  }

  /** A set has only one enumeration. */
  lemma {:induction false} EnumerationUnique(ps: seq<Path>, qs: seq<Path>, s: set<Path>)
    requires Enumerates(ps, s) && Enumerates(qs, s)
    ensures ps == qs
    decreases |ps|
  {
    EnumeratesEmpty(ps, s);
    EnumeratesEmpty(qs, s);
    if ps != [] {
      FirstIsLeast(ps, s, qs[0]);
      FirstIsLeast(qs, s, ps[0]);
      if Before(ps[0], qs[0]) && Before(qs[0], ps[0]) {
        BeforeTransitive(ps[0], qs[0], ps[0]);
        BeforeIrreflexive(ps[0]);
      }
      EnumerationTail(ps, s);
      EnumerationTail(qs, s);
      EnumerationUnique(ps[1..], qs[1..], s - {ps[0]});
      assert ps == [ps[0]] + ps[1..] && qs == [qs[0]] + qs[1..];
    }
  }

  lemma {:induction false} EnumeratesEmpty(ps: seq<Path>, s: set<Path>)
    requires Enumerates(ps, s)
    ensures ps == [] <==> s == {}
  {
    if ps != [] { assert ps[0] in s; }
    if s != {} {
      var p :| p in s;
      assert p in ps;
    }
  }

  lemma {:induction false} FirstIsLeast(ps: seq<Path>, s: set<Path>, p: Path)
    requires Enumerates(ps, s) && p in s
    ensures ps != [] && (p == ps[0] || Before(ps[0], p))
  {
    assert p in ps;
  }

  lemma {:induction false} EnumerationTail(ps: seq<Path>, s: set<Path>)
    requires Enumerates(ps, s) && ps != []
    ensures Enumerates(ps[1..], s - {ps[0]})
  {
    forall i | 0 <= i < |ps| - 1
      ensures ps[1..][i] in s - {ps[0]}
    {
      BeforeIrreflexive(ps[0]);
      assert Before(ps[0], ps[i + 1]);
    }
    forall p | p in s - {ps[0]}
      ensures p in ps[1..]
    {
      var i :| 0 <= i < |ps| && ps[i] == p;
      assert ps[1..][i - 1] == p;
    }
  }

  /** An enumeration has as many members as its set. */
  lemma {:induction false} EnumerationSize(ps: seq<Path>, s: set<Path>)
    requires Enumerates(ps, s)
    ensures |ps| == |s|
    decreases |ps|
  {
    EnumeratesEmpty(ps, s);
    if ps != [] {
      EnumerationTail(ps, s);
      EnumerationSize(ps[1..], s - {ps[0]});
    }
  }

  lemma {:induction false} EnumerationAppend(ps: seq<Path>, s: set<Path>, qs: seq<Path>, t: set<Path>)
    requires Enumerates(ps, s) && Enumerates(qs, t)
    requires forall p, q :: p in s && q in t ==> Before(p, q)
    ensures Enumerates(ps + qs, s + t)
  {
    var r := ps + qs;
    forall i, j | 0 <= i < j < |r|
      ensures Before(r[i], r[j])
    {
      if j < |ps| {
      } else if i >= |ps| {
        assert Before(qs[i - |ps|], qs[j - |ps|]);
      } else {
        assert ps[i] in s && qs[j - |ps|] in t;
      }
    }
  }

  lemma {:induction false} Least(s: set<Path>) returns (m: Path)
    requires s != {}
    ensures m in s && forall p :: p in s ==> p == m || Before(m, p)
  {
    var p :| p in s;
    var others := s - {p};
    assert forall x :: x in s ==> x == p || x in others;
    m := p;
    if others != {} {
      var q := Least(others);
      BeforeTotal(p, q);
      if Before(q, p) {
        m := q;
      } else {
        forall x | x in others && x != q
          ensures Before(p, x)
        {
          BeforeTransitive(p, q, x);
        }
      }
    }
  }

  /** Every finite set has an enumeration. */
  lemma {:induction false} EnumerationExists(s: set<Path>) returns (ps: seq<Path>)
    ensures Enumerates(ps, s)
  {
    if s == {} {
      ps := [];
    } else {
      var m := Least(s);
      var rest := EnumerationExists(s - {m});
      ps := [m] + rest;
      assert forall i :: 0 < i < |ps| ==> ps[i] == rest[i - 1];
    }
  }

  // ---------------------------------------------------------------- names in a directory

  ghost predicate NamesAscend(ns: seq<string>)
  {
    forall i, j :: 0 <= i < j < |ns| ==> NameLess(ns[i], ns[j])
  }

  /** Inserts a new name where it belongs. */
  method InsertName(ns: seq<string>, n: string) returns (r: seq<string>)
    requires NamesAscend(ns) && n !in ns
    ensures NamesAscend(r)
    ensures forall x :: x in r <==> x == n || x in ns
  {
    var k := 0;
    while k < |ns| && NameLess(ns[k], n)
      invariant k <= |ns|
      invariant forall i :: 0 <= i < k ==> NameLess(ns[i], n)
    {
      k := k + 1;
    }
    if k < |ns| { NameLessTotal(ns[k], n); }
    forall i | k <= i < |ns|
      ensures NameLess(n, ns[i])
    {
      if i > k { NameLessTransitive(n, ns[k], ns[i]); }
    }
    r := ns[..k] + [n] + ns[k..];
    assert forall x :: x in ns ==> x in ns[..k] || x in ns[k..];
  }
}
