/** Go's `path/filepath` on Unix, as far as the archiver uses it: Clean, Join and Rel on
    strings, and the component lists behind them. */
module Filepath {
  import opened Text
  import opened Options

  /** A path as its components below "/". */
  type Path = seq<string>

  /** A file name: what a directory can list. */
  predicate IsName(c: string)
  {
    c != "" && c != "." && c != ".." && '/' !in c
  }

  predicate AllNames(p: Path)
  {
    forall i :: 0 <= i < |p| ==> IsName(p[i])
  }

  lemma NamesApart(a: Path, b: Path)
    requires AllNames(a + b)
    ensures AllNames(a) && AllNames(b)
  {
    assert forall i :: 0 <= i < |a| ==> a[i] == (a + b)[i];
    assert forall i :: 0 <= i < |b| ==> b[i] == (a + b)[|a| + i];
  }

  function Parent(p: Path): Path
    requires p != []
  {
    p[..|p| - 1]
  }

  function Last(p: Path): string
    requires p != []
  {
    p[|p| - 1]
  }

  /** Lexical processing of components: drop "" and ".", let ".." undo the component before it. */
  function Squash(rooted: bool, acc: Path, todo: seq<string>): Path
    decreases |todo|
  {
    if todo == [] then acc
    else
      var c, rest := todo[0], todo[1..];
      if c == "" || c == "." then Squash(rooted, acc, rest)
      else if c != ".." then Squash(rooted, acc + [c], rest)
      else if acc != [] && Last(acc) != ".." then Squash(rooted, Parent(acc), rest)
      else if rooted then Squash(rooted, acc, rest)
      else Squash(rooted, acc + [".."], rest)
  }

  predicate Rooted(s: string)
  {
    s != "" && s[0] == '/'
  }

  function Components(s: string): Path
  {
    Squash(Rooted(s), [], Split(s, '/'))
  }

  function Render(rooted: bool, p: Path): string
  {
    if rooted then "/" + Join(p, '/') else if p == [] then "." else Join(p, '/')
  }

  /** The string form of an absolute path. */
  function Absolute(p: Path): string
  {
    Render(true, p)
  }

  function Clean(s: string): string
  {
    Render(Rooted(s), Components(s))
  }

  function JoinPaths(dir: string, name: string): string
  {
    if dir != "" then Clean(dir + "/" + name)
    else if name != "" then Clean(name)
    else ""
  }

  function CommonPrefix(a: Path, b: Path): (k: nat)
    ensures k <= |a| && k <= |b| && a[..k] == b[..k]
    ensures k < |a| && k < |b| ==> a[k] != b[k]
  {
    if a == [] || b == [] || a[0] != b[0] then 0
    else
      var k := CommonPrefix(a[1..], b[1..]);
      assert a[..k + 1] == [a[0]] + a[1..][..k];
      assert b[..k + 1] == [b[0]] + b[1..][..k];
      k + 1
  }

  function Ups(n: nat): (ups: seq<string>)
    ensures |ups| == n
    ensures forall i :: 0 <= i < n ==> ups[i] == ".."
  {
    if n == 0 then [] else [".."] + Ups(n - 1)
  }

  /** The components of Rel's answer. */
  function RelComponents(b: Path, t: Path): seq<string>
  {
    var k := CommonPrefix(b, t);
    Ups(|b| - k) + t[k..]
  }

  function Rel(base: string, targ: string): Option<string>
  {
    var b, t := Components(base), Components(targ);
    if Rooted(base) != Rooted(targ) then None
    else if b == t then Some(".")
    else
      var k := CommonPrefix(b, t);
      if k < |b| && b[k] == ".." then None
      else Some(Join(RelComponents(b, t), '/'))
  }

  // ---------------------------------------------------------------- laws

  lemma {:induction false} SquashNames(rooted: bool, acc: Path, names: Path)
    requires AllNames(names)
    ensures Squash(rooted, acc, names) == acc + names
    decreases |names|
  {
    if names != [] {
      assert IsName(names[0]);
      assert forall i :: 0 <= i < |names| - 1 ==> names[1..][i] == names[i + 1];
      SquashNames(rooted, acc + [names[0]], names[1..]);
      assert acc + [names[0]] + names[1..] == acc + names;
    }
  }

  lemma {:induction false} SquashAppend(rooted: bool, acc: Path, a: seq<string>, b: seq<string>)
    ensures Squash(rooted, acc, a + b) == Squash(rooted, Squash(rooted, acc, a), b)
    decreases |a|
  {
    if a == [] {
      assert a + b == b;
    } else {
      assert (a + b)[1..] == a[1..] + b;
      var c := a[0];
      if c == "" || c == "." {
        SquashAppend(rooted, acc, a[1..], b);
      } else if c != ".." {
        SquashAppend(rooted, acc + [c], a[1..], b);
      } else if acc != [] && Last(acc) != ".." {
        SquashAppend(rooted, Parent(acc), a[1..], b);
      } else if rooted {
        SquashAppend(rooted, acc, a[1..], b);
      } else {
        SquashAppend(rooted, acc + [".."], a[1..], b);
      }
    }
  }

  /** A relative path in cleaned form: first ".."s, then names. */
  predicate UpsThenNames(p: seq<string>)
  {
    forall i :: 0 <= i < |p| ==> IsName(p[i]) || (p[i] == ".." && forall j :: 0 <= j < i ==> p[j] == "..")
  }

  /** Cleaning a relative path first and processing it from a directory then is processing it from that
      directory. */
  lemma {:induction false} SquashTwice(dir: Path, acc: seq<string>, todo: seq<string>)
    requires AllNames(dir) && UpsThenNames(acc) && forall i :: 0 <= i < |todo| ==> '/' !in todo[i]
    ensures Squash(true, dir, Squash(false, acc, todo)) == Squash(true, Squash(true, dir, acc), todo)
    decreases |todo|
  {
    if todo != [] {
      var c, rest := todo[0], todo[1..];
      var base := Squash(true, dir, acc);
      SquashKeepsNames(dir, acc);
      SquashOne(base, c);
      SquashAppend(true, base, [c], rest);
      assert todo == [c] + rest;
      if c == "" || c == "." {
        SquashTwice(dir, acc, rest);
      } else if c != ".." {
        SquashAppend(true, dir, acc, [c]);
        SquashTwice(dir, acc + [c], rest);
      } else if acc != [] && Last(acc) != ".." {
        SquashBack(dir, acc);
        assert forall i :: 0 <= i < |acc| - 1 ==> Parent(acc)[i] == acc[i];
        SquashTwice(dir, Parent(acc), rest);
      } else {
        OnlyUps(acc);
        SquashAppend(true, dir, acc, [".."]);
        SquashTwice(dir, acc + [".."], rest);
      }
    }
  }

  lemma OnlyUps(acc: seq<string>)
    requires UpsThenNames(acc) && (acc == [] || Last(acc) == "..")
    ensures UpsThenNames(acc + [".."])
  {
    if acc != [] {
      assert acc[|acc| - 1] == ".." && !IsName("..");
      assert forall j :: 0 <= j < |acc| - 1 ==> acc[j] == "..";
    }
  }

  lemma {:induction false} SquashKeepsNames(dir: Path, acc: seq<string>)
    requires AllNames(dir) && forall i :: 0 <= i < |acc| ==> '/' !in acc[i]
    ensures AllNames(Squash(true, dir, acc))
    decreases |acc|
  {
    if acc != [] {
      SquashOne(dir, acc[0]);
      assert acc == [acc[0]] + acc[1..];
      SquashAppend(true, dir, [acc[0]], acc[1..]);
      SquashKeepsNames(Squash(true, dir, [acc[0]]), acc[1..]);
    }
  }

  /** A name and ".." after it undo each other. */
  lemma {:induction false} SquashBack(dir: Path, acc: seq<string>)
    requires AllNames(dir) && acc != [] && IsName(Last(acc))
    requires forall i :: 0 <= i < |acc| ==> '/' !in acc[i]
    ensures Squash(true, Squash(true, dir, acc), [".."]) == Squash(true, dir, Parent(acc))
  {
    var up := Squash(true, dir, Parent(acc));
    assert acc == Parent(acc) + [Last(acc)];
    SquashAppend(true, dir, Parent(acc), [Last(acc)]);
    SquashKeepsNames(dir, Parent(acc));
    SquashOne(up, Last(acc));
    SquashOne(up + [Last(acc)], "..");
    assert Parent(up + [Last(acc)]) == up;
  }

  /** One component: ".." goes up and stays at the root, "." and empty ones go nowhere, a name goes
      down. */
  lemma {:induction false} SquashOne(acc: Path, c: string)
    requires AllNames(acc)
    ensures Squash(true, acc, [c]) ==
            if c == "" || c == "." then acc
            else if c == ".." then if acc == [] then [] else Parent(acc)
            else acc + [c]
    ensures '/' !in c ==> AllNames(Squash(true, acc, [c]))
  {
    assert [c][1..] == [];
    if acc != [] { assert IsName(Last(acc)); }
  }

  lemma {:induction false} SquashUps(acc: Path, n: nat)
    requires AllNames(acc) && n <= |acc|
    ensures Squash(true, acc, Ups(n)) == acc[..|acc| - n]
    decreases n
  {
    if n > 0 {
      assert IsName(Last(acc));
      SquashUps(Parent(acc), n - 1);
      assert Ups(n)[1..] == Ups(n - 1);
    }
  }

  /** Reading back the string of an absolute path gives its components. */
  lemma {:induction false} ComponentsOfAbsolute(p: Path)
    requires AllNames(p)
    ensures Rooted(Absolute(p)) && Components(Absolute(p)) == p
    ensures Squash(true, [], Split(Absolute(p), '/')) == p
  {
    var s := Join(p, '/');
    assert Absolute(p) == "" + ['/'] + s;
    SplitAtSeparator("", s, '/');
    assert Split("", '/') == [""];
    if p == [] {
      assert Split(Absolute(p), '/') == ["", ""];
    } else {
      SplitJoin(p, '/');
      SquashNames(true, [], p);
      assert ([""] + p)[1..] == p;
      assert [] + p == p;
    }
  }

  lemma {:induction false} NameFirstCharacter(p: Path)
    requires p != [] && AllNames(p)
    ensures Join(p, '/') != "" && Join(p, '/')[0] != '/' && !Rooted(Join(p, '/'))
  {
    assert IsName(p[0]);
    assert p[0][0] in p[0];
  }

  /** The components of the joined text, with or without a trailing slash. */
  lemma {:induction false} ComponentsOfJoined(p: Path, slash: bool)
    requires p != [] && AllNames(p)
    ensures var s := Join(p, '/') + if slash then "/" else "";
            !Rooted(s) && s != "" && Components(s) == p && Clean(s) == Join(p, '/')
  {
    var s := Join(p, '/');
    NameFirstCharacter(p);
    SplitJoin(p, '/');
    SquashNames(false, [], p);
    assert [] + p == p;
    if slash {
      assert s + "/" == s + ['/'] + "";
      SplitAtSeparator(s, "", '/');
      SquashAppend(false, [], p, [""]);
      assert Components(s + "/") == p;
    } else {
      assert s + "" == s;
    }
  }

  /** Joining an absolute directory with any name works on components. */
  lemma {:induction false} JoinComponents(dir: Path, name: string)
    requires AllNames(dir)
    ensures var s := JoinPaths(Absolute(dir), name);
            s == Absolute(Squash(true, dir, Split(name, '/')))
  {
    var d := Absolute(dir);
    ComponentsOfAbsolute(dir);
    assert d + "/" + name == d + ['/'] + name;
    SplitAtSeparator(d, name, '/');
    SquashAppend(true, [], Split(d, '/'), Split(name, '/'));
  }

  /** Following Rel's components from the base leads to the target. */
  lemma {:induction false} RelComponentsLead(base: Path, targ: Path)
    requires AllNames(base) && AllNames(targ)
    ensures Squash(true, base, RelComponents(base, targ)) == targ
  {
    var k := CommonPrefix(base, targ);
    SquashAppend(true, base, Ups(|base| - k), targ[k..]);
    SquashUps(base, |base| - k);
    assert forall i :: 0 <= i < |targ[k..]| ==> targ[k..][i] == targ[k + i];
    assert forall i :: 0 <= i < k ==> base[..k][i] == base[i];
    SquashNames(true, base[..k], targ[k..]);
    assert targ[..k] + targ[k..] == targ;
  }

  /** Rel's components are never empty strings and hold no slash. */
  lemma {:induction false} RelComponentsShape(base: Path, targ: Path)
    requires AllNames(base) && AllNames(targ) && base != targ
    ensures var cs := RelComponents(base, targ);
            cs != [] && forall i :: 0 <= i < |cs| ==> '/' !in cs[i] && cs[i] != ""
  {
    var k := CommonPrefix(base, targ);
    var cs := RelComponents(base, targ);
    assert base == base[..|base|] && targ == targ[..|targ|];
    forall i | 0 <= i < |cs|
      ensures '/' !in cs[i] && cs[i] != ""
    {
      if i >= |base| - k { assert cs[i] == targ[k..][i - (|base| - k)] == targ[i - |base| + 2 * k]; }
    }
  }

  /** The promise of filepath.Rel: joining the base with the answer leads to the target. */
  lemma {:induction false} JoinRel(base: Path, targ: Path)
    requires AllNames(base) && AllNames(targ)
    ensures var r := Rel(Absolute(base), Absolute(targ));
            r.Some? && r.value != "" && !Rooted(r.value)
            && JoinPaths(Absolute(base), r.value) == Absolute(targ)
  {
    ComponentsOfAbsolute(base);
    ComponentsOfAbsolute(targ);
    if base == targ {
      SplitWithoutSeparator(".", '/');
      JoinComponents(base, ".");
    } else {
      var k := CommonPrefix(base, targ);
      assert k < |base| ==> IsName(base[k]);
      var cs := RelComponents(base, targ);
      RelComponentsShape(base, targ);
      SplitJoin(cs, '/');
      assert cs[0][0] in cs[0];
      JoinComponents(base, Join(cs, '/'));
      RelComponentsLead(base, targ);
    }
  }

  /** Relative to its root, a path inside the root is just the rest of its components. */
  lemma {:induction false} RelInside(root: Path, p: Path)
    requires AllNames(root) && AllNames(p)
    ensures Rel(Absolute(root), Absolute(root + p)) == Some(if p == [] then "." else Join(p, '/'))
  {
    ComponentsOfAbsolute(root);
    ComponentsOfAbsolute(root + p);
    if p == [] {
      assert root + p == root;
    } else {
      assert root + p != root by { assert |root + p| != |root|; }
      var k := CommonPrefix(root, root + p);
      assert forall i :: 0 <= i < |root| ==> root[i] == (root + p)[i];
      assert k == |root|;
      assert (root + p)[k..] == p;
      assert Ups(0) + p == p;
    }
  }

  /** Relative to a base that parts from it after `c`, a target is named by one ".." for each further
      component of the base, and then its own further components: no more, no fewer. */
  lemma {:induction false} RelExact(c: Path, b: Path, t: Path)
    requires AllNames(c) && AllNames(b) && AllNames(t) && b + t != []
    requires b == [] || t == [] || b[0] != t[0]
    ensures Rel(Absolute(c + b), Absolute(c + t)) == Some(Join(Ups(|b|) + t, '/'))
  {
    var base, targ := c + b, c + t;
    ComponentsOfAbsolute(base);
    ComponentsOfAbsolute(targ);
    var k := CommonPrefix(base, targ);
    CommonPrefixIs(c, b, t);
    assert base[|c|..] == b && targ[|c|..] == t;
    assert base != targ by { assert b != t; }
    assert k < |base| ==> IsName(base[k]);
  }

  lemma {:induction false} CommonPrefixIs(c: Path, b: Path, t: Path)
    requires b == [] || t == [] || b[0] != t[0]
    ensures CommonPrefix(c + b, c + t) == |c|
  {
    if c == [] {
      assert c + b == b && c + t == t;
    } else {
      assert (c + b)[1..] == c[1..] + b && (c + t)[1..] == c[1..] + t;
      CommonPrefixIs(c[1..], b, t);
    }
  }

  /** An archive name for p, as the archiver writes it. */
  function EntryName(p: Path, isDir: bool): string
  {
    Join(p, '/') + if isDir then "/" else ""
  }

  /** The path algebra of a round trip: the name computed under one root, with or without the
      directory slash, is replayed at the same place under any destination. */
  lemma {:induction false} ReplayedName(root: Path, dst: Path, p: Path, isDir: bool)
    requires AllNames(root) && AllNames(dst) && AllNames(p) && p != []
    ensures var rel := Rel(Absolute(root), Absolute(root + p));
            && rel.Some? && rel.value != "."
            && EntryName(p, isDir) == rel.value + (if isDir then "/" else "")
            && JoinPaths(Absolute(dst), Clean(EntryName(p, isDir))) == Absolute(dst + p)
            && Components(JoinPaths(Absolute(dst), Clean(EntryName(p, isDir)))) == dst + p
  {
    RelInside(root, p);
    ComponentsOfJoined(p, isDir);
    ComponentsOfJoined(p, false);
    SplitJoin(p, '/');
    JoinComponents(dst, Join(p, '/'));
    SquashNames(true, dst, p);
    ComponentsOfAbsolute(dst + p);
    SplitWithoutSeparator(".", '/');
    assert IsName(p[0]);
    assert Split(Join(p, '/'), '/')[0] != ".";
  }

  // ---------------------------------------------------------------- cleaning

  /** Components come out cleaned: names, behind ".."s if the path is relative. */
  lemma {:induction false} SquashIsClean(rooted: bool, acc: Path, todo: seq<string>)
    requires forall i :: 0 <= i < |todo| ==> '/' !in todo[i]
    requires if rooted then AllNames(acc) else UpsThenNames(acc)
    ensures var cs := Squash(rooted, acc, todo); if rooted then AllNames(cs) else UpsThenNames(cs)
    decreases |todo|
  {
    if todo != [] {
      var c, rest := todo[0], todo[1..];
      if c == "" || c == "." {
        SquashIsClean(rooted, acc, rest);
      } else if c != ".." {
        SquashIsClean(rooted, acc + [c], rest);
      } else if acc != [] && Last(acc) != ".." {
        assert forall i :: 0 <= i < |acc| - 1 ==> Parent(acc)[i] == acc[i];
        SquashIsClean(rooted, Parent(acc), rest);
      } else if rooted {
        SquashIsClean(rooted, acc, rest);
      } else {
        OnlyUps(acc);
        SquashIsClean(rooted, acc + [".."], rest);
      }
    }
  }

  /** Cleaned components are left as they are. */
  lemma {:induction false} SquashKeepsClean(acc: Path, todo: seq<string>)
    requires UpsThenNames(acc + todo)
    ensures Squash(false, acc, todo) == acc + todo
    decreases |todo|
  {
    if todo == [] {
      assert acc + todo == acc;
    } else {
      assert (acc + todo)[|acc|] == todo[0];
      assert acc + [todo[0]] + todo[1..] == acc + todo;
      if todo[0] == ".." && acc != [] {
        assert !IsName("..") && (acc + todo)[|acc| - 1] == "..";
      }
      SquashKeepsClean(acc + [todo[0]], todo[1..]);
    }
  }

  lemma {:induction false} ComponentsOfClean(s: string)
    ensures Clean(s) != "" && Rooted(Clean(s)) == Rooted(s) && Components(Clean(s)) == Components(s)
  {
    var cs := Components(s);
    SquashIsClean(Rooted(s), [], Split(s, '/'));
    if Rooted(s) {
      ComponentsOfAbsolute(cs);
    } else if cs == [] {
      SplitWithoutSeparator(".", '/');
      SquashOne([], ".");
    } else {
      assert forall i :: 0 <= i < |cs| ==> '/' !in cs[i] && cs[i] != "";
      SplitJoin(cs, '/');
      assert cs[0][0] in cs[0];
      assert [] + cs == cs;
      SquashKeepsClean([], cs);
    }
  }

  /** Cleaning is idempotent, and its result is never empty. */
  lemma {:induction false} CleanTwice(s: string)
    ensures Clean(Clean(s)) == Clean(s) && Clean(s) != ""
  {
    ComponentsOfClean(s);
  }
}
