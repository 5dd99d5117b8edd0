/** FakeRepository: the in-memory stand-in for a remote repository, with its two maps. */
module Fakes {
  import opened Options

  /** A Go map from names to booleans; None is a nil map. */
  type GoMap = Option<map<string, bool>>

  function Entries(m: GoMap): map<string, bool>
  {
    match m
    case Some(entries) => entries
    case None => map[]
  }

  /** Reading a missing key gives false. */
  predicate Holds(m: GoMap, name: string)
  {
    name in Entries(m) && Entries(m)[name]
  }

  datatype Maps = Maps(created: GoMap, recorded: GoMap)

  datatype Result = Result(maps: Maps, failed: bool)

  /** Ensure on the two maps: looked up by value, but created by key. */
  function EnsureOn(m: Maps, name: string): Result
  {
    var known := Some(Entries(m.recorded));
    if Holds(m.recorded, name) then Result(m.(recorded := known), false)
    else if name in Entries(m.recorded) then Result(m.(recorded := known), true)
    else Result(Maps(Some(Entries(m.created)[name := true]), Some(Entries(m.recorded)[name := true])), false)
  }

  class FakeRepository {
    var CreatedRepos: GoMap
    var RepoExists: GoMap

    constructor ()
      ensures State() == Maps(None, None)
    {
      CreatedRepos, RepoExists := None, None;
    }

    ghost function State(): Maps
      reads this
    {
      Maps(CreatedRepos, RepoExists)
    }

    method Create(name: string) returns (failed: bool)
      modifies this
      ensures failed <==> name in Entries(old(RepoExists))
      ensures failed ==> State() == old(State())
      ensures !failed ==> CreatedRepos == Some(Entries(old(CreatedRepos))[name := true])
                          && RepoExists == Some(Entries(old(RepoExists))[name := true])
    {
      if name in Entries(RepoExists) { return true; }
      if CreatedRepos.None? { CreatedRepos := Some(map[]); }
      if RepoExists.None? { RepoExists := Some(map[]); }
      CreatedRepos := Some(CreatedRepos.value[name := true]);
      RepoExists := Some(RepoExists.value[name := true]);
      failed := false;
    }

    method Exists(name: string) returns (found: bool)
      modifies this
      ensures CreatedRepos == old(CreatedRepos) && RepoExists == Some(Entries(old(RepoExists)))
      ensures found <==> Holds(old(RepoExists), name)
    {
      if RepoExists.None? { RepoExists := Some(map[]); }
      found := Holds(RepoExists, name);
    }

    method Ensure(name: string) returns (failed: bool)
      modifies this
      ensures Result(State(), failed) == EnsureOn(old(State()), name)
    {
      var found := Exists(name);
      if !found {
        failed := Create(name);
        return;
      }
      failed := false;
    }
  }

  /** The maps after any sequence of calls, and whether any of them failed. */
  function EnsureEach(m: Maps, names: seq<string>): Result
  {
    if names == [] then Result(m, false)
    else
      var before := EnsureEach(m, names[..|names| - 1]);
      var last := EnsureOn(before.maps, names[|names| - 1]);
      Result(last.maps, before.failed || last.failed)
  }

  predicate AllTrue(m: GoMap)
  {
    forall name :: name in Entries(m) ==> Entries(m)[name]
  }

  /** A call fails exactly when its name is recorded as not existing: such a key hides the
      repository from the lookup and blocks its creation. */
  lemma {:induction false} EnsureFails(m: Maps, name: string)
    ensures EnsureOn(m, name).failed <==> name in Entries(m.recorded) && !Entries(m.recorded)[name]
    ensures !EnsureOn(m, name).failed ==> Holds(EnsureOn(m, name).maps.recorded, name)
  {
  }

  /** What a call leaves: a name that is not recorded is recorded and created, and nothing else in
      either map changes, whatever the outcome. */
  lemma {:induction false} EnsureRecords(m: Maps, name: string)
    ensures var r, missing := EnsureOn(m, name), name !in Entries(m.recorded);
            && Entries(r.maps.recorded) == (if missing then Entries(m.recorded)[name := true] else Entries(m.recorded))
            && Entries(r.maps.created) == (if missing then Entries(m.created)[name := true] else Entries(m.created))
  {
  }

  /** Where every recorded repository exists, no sequence of calls fails, the existing repositories
      become the initial ones and the ensured ones, and the created ones are exactly the ensured
      names that were not there. */
  lemma {:induction false} FakeIsASet(m: Maps, names: seq<string>)
    requires AllTrue(m.recorded) && Entries(m.created) == map[]
    ensures var r := EnsureEach(m, names);
            var ensured := set n | n in names;
            && !r.failed
            && AllTrue(r.maps.recorded) && AllTrue(r.maps.created)
            && Entries(r.maps.recorded).Keys == Entries(m.recorded).Keys + ensured
            && Entries(r.maps.created).Keys == ensured - Entries(m.recorded).Keys
  {
    if names == [] {
    } else {
      var k := |names| - 1;
      FakeIsASet(m, names[..k]);
      assert names == names[..k] + [names[k]];
      assert (set n | n in names) == (set n | n in names[..k]) + {names[k]};
    }
  }

  /** From the zero value the two maps always agree. */
  lemma {:induction false} MapsAgree(names: seq<string>)
    ensures var r := EnsureEach(Maps(None, None), names);
            && !r.failed
            && Entries(r.maps.created) == Entries(r.maps.recorded)
            && Entries(r.maps.created).Keys == set n | n in names
  {
    FakeIsASet(Maps(None, None), names);
    var r := EnsureEach(Maps(None, None), names);
    assert Entries(r.maps.created).Keys == Entries(r.maps.recorded).Keys;
  }
}
