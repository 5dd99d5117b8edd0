/** OCI.Ensure for one caller at a time: authenticate once, list, and create what is missing. */
module Ensuring {
  import opened Options
  import opened ImageName

  datatype EnsureError = AuthFailed | BadName | ListFailed | CreateFailed | AlreadyExists

  /** Failures from outside during one call: an unusable configuration, and remote errors. */
  datatype Faults = Faults(badConfig: bool, list: bool, create: bool)

  /** The repositories of one compartment, as the remote service keeps them. */
  class Compartment {
    var repos: set<string>
    ghost var created: seq<string>

    constructor (initial: set<string>)
      ensures repos == initial && created == []
    {
      repos, created := initial, [];
    }

    /** ListContainerRepositories filtered by display name: how many items come back. */
    method List(name: string, fails: bool) returns (items: Option<nat>)
      ensures items == if fails then None else Some(if name in repos then 1 else 0)
    {
      items := if fails then None else Some(if name in repos then 1 else 0);
    }

    /** CreateContainerRepository rejects what exists. */
    method Create(name: string, fails: bool) returns (err: Option<EnsureError>)
      modifies this
      ensures err == if fails then Some(CreateFailed) else if name in old(repos) then Some(AlreadyExists) else None
      ensures repos == if err.None? then old(repos) + {name} else old(repos)
      ensures created == if err.None? then old(created) + [name] else old(created)
    {
      if fails { return Some(CreateFailed); }
      if name in repos { return Some(AlreadyExists); }
      repos, created := repos + {name}, created + [name];
      err := None;
    }
  }

  /** What Ensure depends on and changes: whether the client field is set, the repositories, and
      the names created so far. */
  datatype World = World(connected: bool, repos: set<string>, created: seq<string>)

  datatype Ensured = Ensured(world: World, err: Option<EnsureError>)

  function EnsureOnce(w: World, image: string, faults: Faults): Ensured
  {
    if !w.connected && faults.badConfig then Ensured(w.(connected := true), Some(AuthFailed))
    else
      var w' := w.(connected := true);
      match ParseRepository(image)
      case None => Ensured(w', Some(BadName))
      case Some(name) =>
        if faults.list then Ensured(w', Some(ListFailed))
        else if name in w.repos then Ensured(w', None)
        else if faults.create then Ensured(w', Some(CreateFailed))
        else Ensured(w'.(repos := w.repos + {name}, created := w.created + [name]), None)
  }

  class OCI {
    /** Whether the client field is set. */
    var connected: bool
    const remote: Compartment

    constructor (compartment: Compartment)
      ensures !connected && remote == compartment
    {
      connected, remote := false, compartment;
    }

    ghost function State(): World
      reads this, remote
    {
      World(connected, remote.repos, remote.created)
    }

    /** The client field is assigned before the error is looked at. */
    method Auth(badConfig: bool) returns (err: Option<EnsureError>)
      modifies this
      ensures connected
      ensures err == if !old(connected) && badConfig then Some(AuthFailed) else None
    {
      if connected { return None; }
      connected := true;
      if badConfig { return Some(AuthFailed); }
      err := None;
    }

    method Exists(image: string, fails: bool) returns (found: bool, err: Option<EnsureError>)
      ensures match ParseRepository(image)
              case None => err == Some(BadName)
              case Some(name) =>
                if fails then err == Some(ListFailed) else err == None && found == (name in remote.repos)
    {
      var name := ParseRepository(image);
      if name.None? { return false, Some(BadName); }
      var items := remote.List(name.value, fails);
      if items.None? { return false, Some(ListFailed); }
      if items.value == 0 { return false, None; }
      return true, None;
    }

    method Create(image: string, fails: bool) returns (err: Option<EnsureError>)
      requires ParseRepository(image).Some?
      modifies remote
      ensures var name := ParseRepository(image).value;
              && err == (if fails then Some(CreateFailed)
                         else if name in old(remote.repos) then Some(AlreadyExists) else None)
              && remote.repos == (if err.None? then old(remote.repos) + {name} else old(remote.repos))
              && remote.created == (if err.None? then old(remote.created) + [name] else old(remote.created))
    {
      var name := ParseRepository(image);
      err := remote.Create(name.value, fails);
    }

    method Ensure(image: string, faults: Faults) returns (err: Option<EnsureError>)
      modifies this, remote
      ensures Ensured(State(), err) == EnsureOnce(old(State()), image, faults)
    {
      err := Auth(faults.badConfig);
      if err.Some? { return; }
      var found;
      found, err := Exists(image, faults.list);
      if err.Some? { return; }
      if !found {
        err := Create(image, faults.create);
        return;
      }
      err := None;
    }
  }

  // ---------------------------------------------------------------- laws

  /** A caller on its own succeeds if and only if there is a client or a good configuration, the
      reference is valid, listing works, and the repository is there or can be created. Each error
      has its condition; a duplicate rejection has none. */
  lemma {:induction false} EnsureMeans(w: World, image: string, faults: Faults)
    ensures var r, name := EnsureOnce(w, image, faults), ParseRepository(image);
            var authenticated := w.connected || !faults.badConfig;
            && (r.err.None? <==>
                  authenticated && name.Some? && !faults.list && (name.value in w.repos || !faults.create))
            && (r.err == Some(AuthFailed) <==> !authenticated)
            && (r.err == Some(BadName) <==> authenticated && name.None?)
            && (r.err == Some(ListFailed) <==> authenticated && name.Some? && faults.list)
            && (r.err == Some(CreateFailed) <==>
                  authenticated && name.Some? && !faults.list && name.value !in w.repos && faults.create)
            && r.err != Some(AlreadyExists)
  {
  }

  /** Success leaves the repository there, made only if it was missing; an error changes nothing. */
  lemma {:induction false} EnsureLeaves(w: World, image: string, faults: Faults)
    ensures var r, name := EnsureOnce(w, image, faults), ParseRepository(image);
            && r.world.connected
            && (r.err.Some? ==> r.world.repos == w.repos && r.world.created == w.created)
            && (r.err.None? ==>
                  && name.Some? && r.world.repos == w.repos + {name.value}
                  && r.world.created == w.created + if name.value in w.repos then [] else [name.value])
  {
    var name := ParseRepository(image);
    if name.Some? && name.value in w.repos { assert w.repos + {name.value} == w.repos; }
  }

  /** A failed authentication is reported exactly once: it needs a call without a client, and every
      call leaves a client behind. */
  lemma {:induction false} AuthFailsOnlyOnce(w: World, image: string, faults: Faults, image2: string, faults2: Faults)
    ensures var r := EnsureOnce(w, image, faults);
            && (r.err == Some(AuthFailed) <==> !w.connected && faults.badConfig)
            && r.world.connected
            && EnsureOnce(r.world, image2, faults2).err != Some(AuthFailed)
  {
  }

  const CLEAR := Faults(false, false, false)

  /** Calls one after the other, without failures from outside. */
  function EnsureAll(w: World, images: seq<string>): (r: World)
  {
    if images == [] then w
    else EnsureOnce(EnsureAll(w, images[..|images| - 1]), images[|images| - 1], CLEAR).world
  }

  lemma {:induction false} NamesOfPrefix(images: seq<string>)
    requires images != []
    ensures var n := |images| - 1;
            var last := ParseRepository(images[n]);
            NamesOf(images) == NamesOf(images[..n]) + if last.Some? then {last.value} else {}
  {
    var n := |images| - 1;
    forall name | name in NamesOf(images[..n])
      ensures name in NamesOf(images)
    {
      var i :| 0 <= i < n && ParseRepository(images[..n][i]) == Some(name);
      assert images[i] == images[..n][i];
    }
    forall name | name in NamesOf(images)
      ensures name in NamesOf(images[..n]) || ParseRepository(images[n]) == Some(name)
    {
      var i :| 0 <= i < |images| && ParseRepository(images[i]) == Some(name);
      if i < n { assert images[..n][i] == images[i]; }
    }
  }

  ghost predicate Distinct(names: seq<string>)
  {
    forall i, j :: 0 <= i < j < |names| ==> names[i] != names[j]
  }

  ghost function Members(names: seq<string>): (s: set<string>)
    ensures forall name :: name in s <==> name in names
  {
    set name | name in names
  }

  /** Any sequence of calls ends with the initial repositories and those the valid references name;
      each missing one was created exactly once. */
  lemma {:induction false} EnsureAllMeans(w: World, images: seq<string>)
    requires w.created == []
    ensures var r := EnsureAll(w, images);
            && r.repos == w.repos + NamesOf(images)
            && Distinct(r.created)
            && Members(r.created) == NamesOf(images) - w.repos
  {
    if images == [] {
      assert NamesOf(images) == {};
    } else {
      var n := |images| - 1;
      EnsureAllMeans(w, images[..n]);
      NamesOfPrefix(images);
      var before, after := EnsureAll(w, images[..n]), EnsureAll(w, images);
      var name := ParseRepository(images[n]);
      if name.Some? && name.value !in before.repos {
        assert after.created == before.created + [name.value];
        assert name.value !in Members(before.created);
        assert Members(after.created) == Members(before.created) + {name.value};
      }
    }
  }

  /** Repeating a call creates nothing again. */
  lemma {:induction false} EnsureTwice(w: World, image: string, other: string)
    requires ParseRepository(image) == ParseRepository(other)
    ensures var first := EnsureOnce(w.(connected := true), image, CLEAR);
            EnsureOnce(first.world, other, CLEAR) == first
  {
  }
}
