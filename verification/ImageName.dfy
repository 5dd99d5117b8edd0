/** The repository name inside an image reference: parserRegistryRepository. */
module ImageName {
  import opened Options
  import opened Text

  /** Everything after the second slash, up to the first colon. None for a reference with fewer than
      two slashes. */
  function ParseRepository(image: string): Option<string>
  {
    var parts := Split(image, '/');
    if |parts| < 3 then None
    else
      var repoWithTag := Join(parts[2..], '/');
      var repoParts := Split(repoWithTag, ':');
      Some(repoParts[0])
  }

  /** An image reference in the shape registry/namespace/repository, then nothing or a tag. */
  ghost predicate Names(image: string, registry: string, namespace: string, repository: string, tail: string)
  {
    && image == registry + "/" + namespace + "/" + repository + tail
    && '/' !in registry && '/' !in namespace && ':' !in repository
    && (tail == "" || tail[0] == ':')
  }

  lemma {:induction false} ParseFails(image: string)
    ensures ParseRepository(image).None? <==> Count(image, '/') < 2
  {
    SplitCount(image, '/');
  }

  /** Splitting at a colon what starts with a colon-free part. */
  lemma {:induction false} FirstColonPart(repository: string, tail: string)
    requires ':' !in repository && (tail == "" || tail[0] == ':')
    ensures Split(repository + tail, ':')[0] == repository
  {
    SplitWithoutSeparator(repository, ':');
    if tail == "" {
      assert repository + tail == repository;
    } else {
      SplitAtSeparator(repository, tail[1..], ':');
      assert repository + tail == repository + [':'] + tail[1..];
    }
  }

  lemma OneSlashAtATime(a: string, b: string, rest: string)
    ensures a + "/" + b + "/" + rest == a + ['/'] + (b + ['/'] + rest)
  {
  }

  /** Joining the parts of a reference from the third on gives back all text after the second slash. */
  lemma {:induction false} AfterTwoSlashes(a: string, b: string, rest: string)
    requires '/' !in a && '/' !in b
    ensures var parts := Split(a + "/" + b + "/" + rest, '/');
            |parts| >= 3 && Join(parts[2..], '/') == rest
  {
    var image := a + "/" + b + "/" + rest;
    OneSlashAtATime(a, b, rest);
    SplitAtSeparator(a, b + ['/'] + rest, '/');
    SplitAtSeparator(b, rest, '/');
    SplitWithoutSeparator(a, '/');
    SplitWithoutSeparator(b, '/');
    var parts := Split(image, '/');
    assert parts == [a] + ([b] + Split(rest, '/'));
    assert parts[2..] == Split(rest, '/');
    JoinSplit(rest, '/');
  }

  /** The parser inverts the reference format, whatever slashes the repository and whatever text the
      tag contains. */
  lemma {:induction false} ParseInverts(image: string, registry: string, namespace: string,
                                        repository: string, tail: string)
    requires Names(image, registry, namespace, repository, tail)
    ensures ParseRepository(image) == Some(repository)
  {
    assert image == registry + "/" + namespace + "/" + (repository + tail);
    AfterTwoSlashes(registry, namespace, repository + tail);
    FirstColonPart(repository, tail);
  }

  /** The text before and after the first separator. */
  lemma {:induction false} CutAtFirst(s: string, sep: char) returns (a: string, b: string)
    requires sep in s
    ensures s == a + [sep] + b && sep !in a
  {
    if s[0] == sep {
      a, b := "", s[1..];
    } else {
      a, b := CutAtFirst(s[1..], sep);
      a := [s[0]] + a;
      assert s == [s[0]] + s[1..];
    }
  }

  lemma {:induction false} CountPositive(s: string, c: char)
    ensures Count(s, c) > 0 <==> c in s
  {
    if s != "" {
      CountPositive(s[1..], c);
      assert s == [s[0]] + s[1..];
    }
  }

  lemma {:induction false} CountAppend(a: string, c: char, b: string)
    requires c !in a
    ensures Count(a + [c] + b, c) == 1 + Count(b, c)
  {
    if a == "" {
      assert a + [c] + b == [c] + b;
    } else {
      assert (a + [c] + b)[1..] == a[1..] + [c] + b;
      CountAppend(a[1..], c, b);
    }
  }

  /** The three parts of a reference with two slashes or more. */
  lemma {:induction false} ThreeParts(image: string) returns (registry: string, namespace: string, rest: string)
    requires Count(image, '/') >= 2
    ensures '/' !in registry && '/' !in namespace
    ensures image == registry + "/" + namespace + "/" + rest
  {
    CountPositive(image, '/');
    var more;
    registry, more := CutAtFirst(image, '/');
    CountAppend(registry, '/', more);
    CountPositive(more, '/');
    namespace, rest := CutAtFirst(more, '/');
    OneSlashAtATime(registry, namespace, rest);
  }

  lemma {:induction false} ParseDecomposes(image: string, r: string)
    requires ParseRepository(image) == Some(r)
    ensures exists registry, namespace, tail :: Names(image, registry, namespace, r, tail)
  {
    ParseFails(image);
    var registry, namespace, rest := ThreeParts(image);
    AfterTwoSlashes(registry, namespace, rest);
    var tail := AfterColon(rest);
    assert registry + "/" + namespace + "/" + (r + tail) == registry + "/" + namespace + "/" + r + tail;
    assert Names(image, registry, namespace, r, tail);
  }

  /** The parser accepts exactly the references of that shape, and answers their repository. */
  lemma {:induction false} ParseExactly(image: string, r: string)
    ensures ParseRepository(image) == Some(r) <==>
            exists registry, namespace, tail :: Names(image, registry, namespace, r, tail)
  {
    if ParseRepository(image) == Some(r) {
      ParseDecomposes(image, r);
    }
    if exists registry, namespace, tail :: Names(image, registry, namespace, r, tail) {
      var registry, namespace, tail :| Names(image, registry, namespace, r, tail);
      ParseInverts(image, registry, namespace, r, tail);
    }
  }

  lemma {:induction false} AfterColon(rest: string) returns (tail: string)
    ensures var r := Split(rest, ':')[0];
            rest == r + tail && ':' !in r && (tail == "" || tail[0] == ':')
  {
    if ':' in rest {
      var a, b := CutAtFirst(rest, ':');
      SplitAtSeparator(a, b, ':');
      SplitWithoutSeparator(a, ':');
      tail := [':'] + b;
    } else {
      SplitWithoutSeparator(rest, ':');
      tail := "";
    }
  }

  /** References that differ only in registry, namespace or tag share their repository. */
  lemma {:induction false} SameRepository(a: string, b: string, r: string,
                                          registryA: string, namespaceA: string, tailA: string,
                                          registryB: string, namespaceB: string, tailB: string)
    requires Names(a, registryA, namespaceA, r, tailA) && Names(b, registryB, namespaceB, r, tailB)
    ensures ParseRepository(a) == ParseRepository(b) == Some(r)
  {
    ParseInverts(a, registryA, namespaceA, r, tailA);
    ParseInverts(b, registryB, namespaceB, r, tailB);
  }

  /** A digest is no tag to the parser: the algorithm name stays in the repository name. */
  lemma {:induction false} DigestStaysInName(registry: string, namespace: string, repository: string, hex: string)
    requires '/' !in registry && '/' !in namespace && ':' !in repository
    ensures ParseRepository(registry + "/" + namespace + "/" + repository + "@sha256:" + hex)
         == Some(repository + "@sha256")
  {
    var r, tail := repository + "@sha256", ":" + hex;
    var image := registry + "/" + namespace + "/" + repository + "@sha256:" + hex;
    assert image == registry + "/" + namespace + "/" + r + tail;
    assert ':' !in r;
    ParseInverts(image, registry, namespace, r, tail);
  }

  /** The repositories named by the valid references. */
  ghost function NamesOf(images: seq<string>): set<string>
  {
    set i | 0 <= i < |images| && ParseRepository(images[i]).Some? :: ParseRepository(images[i]).value
  }
}
