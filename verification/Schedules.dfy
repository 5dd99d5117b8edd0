/** What the interleaving of Ensure calls has to do with their outcome: which calls can be rejected
    at all, when all have returned, and what happens to a call that nobody interrupts. */
module Schedules {
  import opened Options
  import opened ImageName
  import opened Race
  import Ensuring

  // ---------------------------------------------------------------- which calls can be rejected

  /** Two calls for the same repository, which is missing at the start. */
  predicate Rivals(repos: set<string>, images: seq<string>, i: nat, j: nat)
  {
    && i < |images| && j < |images| && i != j
    && ParseRepository(images[i]) == ParseRepository(images[j])
    && ParseRepository(images[i]).Some? && ParseRepository(images[i]).value !in repos
  }

  predicate EndsAs(repos: set<string>, images: seq<string>, actions: seq<Action>, i: nat, outcome: Outcome)
  {
    i < |images| && Run(repos, images, actions).pcs[i] == Done(outcome)
  }

  /** Over every run: a call rejected as a duplicate has a rival that has created the repository. */
  lemma {:induction false} DuplicateHasCreator(repos: set<string>, images: seq<string>, actions: seq<Action>, i: nat)
    returns (j: nat)
    requires EndsAs(repos, images, actions, i, Duplicate)
    ensures Rivals(repos, images, i, j) && EndsAs(repos, images, actions, j, Created)
  {
    RunKeepsInv(repos, images, actions);
    RunEventsNamed(repos, images, actions);
    var s := Run(repos, images, actions);
    assert CallKnown(images, s, i);
    var k :| RejectedAt(s.log, k, i);
    assert RejectionExplained(s.log, k);
    var l :| 0 <= l < k && MissedAt(s.log, l, i, s.log[k].name) && MadeBetween(s.log, l, k, i, s.log[k].name);
    var m :| l < m < k && MakesAt(s.log, m, s.log[k].name) && s.log[m].call != i;
    j := s.log[m].call;
    assert CallKnown(images, s, j) && MadeBy(s.log, m, j);
  }

  /** The race is real, for any two rivals among any calls: both list before either creates, and the
      slower one returns an error although its repository is there. */
  lemma {:induction false} RaceExists(repos: set<string>, images: seq<string>, i: nat, j: nat)
    requires Rivals(repos, images, i, j)
    ensures var race := [Action(i, false), Action(j, false), Action(j, false), Action(i, false)];
            && EndsAs(repos, images, race, i, Duplicate) && EndsAs(repos, images, race, j, Created)
            && Run(repos, images, race).repos == repos + {ParseRepository(images[i]).value}
  {
    var l, r := Action(i, false), Action(j, false);
    var n := ParseRepository(images[i]).value;
    assert [l, r, r, l][..3] == [l, r, r] && [l, r, r][..2] == [l, r] && [l, r][..1] == [l] && [l][..0] == [];
    var s0 := Initial(repos, images);
    assert Run(repos, images, []) == s0 && s0.pcs[i].Start? && s0.pcs[j].Start?;
    var s1 := Run(repos, images, [l]);
    assert s1 == Step(images, s0, l) && s1.pcs[i].NotFound? && s1.pcs[j].Start? && s1.repos == repos;
    var s2 := Run(repos, images, [l, r]);
    assert s2 == Step(images, s1, r) && s2.pcs[i].NotFound? && s2.pcs[j].NotFound? && s2.repos == repos;
    var s3 := Run(repos, images, [l, r, r]);
    assert s3 == Step(images, s2, r) && s3.pcs[i].NotFound? && s3.pcs[j] == Done(Created) && s3.repos == repos + {n};
    assert Run(repos, images, [l, r, r, l]) == Step(images, s3, l);
  }

  /** A call can be rejected as a duplicate, in some interleaving, if and only if another of the calls
      is for the same repository and that repository is missing at the start. */
  lemma {:induction false} RejectableIff(repos: set<string>, images: seq<string>, i: nat)
    ensures (exists actions :: EndsAs(repos, images, actions, i, Duplicate))
       <==> (exists j :: Rivals(repos, images, i, j))
  {
    if exists actions :: EndsAs(repos, images, actions, i, Duplicate) {
      var actions :| EndsAs(repos, images, actions, i, Duplicate);
      var j := DuplicateHasCreator(repos, images, actions, i);
    }
    if exists j :: Rivals(repos, images, i, j) {
      var j :| Rivals(repos, images, i, j);
      RaceExists(repos, images, i, j);
    }
  }

  /** So a duplicate rejection is possible at all exactly for calls among which there are rivals. */
  lemma {:induction false} RejectionPossibleIff(repos: set<string>, images: seq<string>)
    ensures (exists actions, i :: EndsAs(repos, images, actions, i, Duplicate))
       <==> (exists i, j :: Rivals(repos, images, i, j))
  {
    if exists actions, i :: EndsAs(repos, images, actions, i, Duplicate) {
      var actions, i :| EndsAs(repos, images, actions, i, Duplicate);
      RejectableIff(repos, images, i);
    }
    if exists i, j :: Rivals(repos, images, i, j) {
      var i, j :| Rivals(repos, images, i, j);
      RejectableIff(repos, images, i);
    }
  }

  // ---------------------------------------------------------------- when all calls have returned

  /** How many requests of the call are in the schedule. */
  function Requests(actions: seq<Action>, i: nat): nat
  {
    if actions == [] then 0
    else Requests(actions[..|actions| - 1], i) + if actions[|actions| - 1].call == i then 1 else 0
  }

  predicate NoneFails(actions: seq<Action>)
  {
    forall k :: 0 <= k < |actions| ==> !actions[k].fails
  }

  /** A call has started with its first request and returned by its second, whatever the others do. */
  lemma {:induction false} TwoRequestsSuffice(repos: set<string>, images: seq<string>, actions: seq<Action>, i: nat)
    requires i < |images|
    ensures var pc := Run(repos, images, actions).pcs[i];
            && (pc.Start? <==> Requests(actions, i) == 0)
            && (Requests(actions, i) >= 2 ==> pc.Done?)
            && (NoneFails(actions) ==> pc != Done(RemoteError))
  {
    if actions != [] {
      TwoRequestsSuffice(repos, images, actions[..|actions| - 1], i);
    }
  }

  /** Whatever the interleaving, once each call has made two requests and none of them failed, all
      have returned and every valid name has its repository. */
  lemma {:induction false} AllServed(repos: set<string>, images: seq<string>, actions: seq<Action>)
    requires NoneFails(actions) && forall i :: 0 <= i < |images| ==> Requests(actions, i) >= 2
    ensures forall i :: 0 <= i < |images| ==> Run(repos, images, actions).pcs[i].Done?
    ensures Run(repos, images, actions).repos == repos + NamesOf(images)
  {
    forall i | 0 <= i < |images|
      ensures var pc := Run(repos, images, actions).pcs[i]; pc.Done? && !pc.outcome.RemoteError?
    {
      TwoRequestsSuffice(repos, images, actions, i);
    }
    AllReturned(repos, images, actions);
  }

  // ---------------------------------------------------------------- one call alone

  /** What the caller is told. */
  function Verdict(outcome: Outcome, listFails: bool): Option<Ensuring.EnsureError>
  {
    match outcome
    case Present => None
    case Created => None
    case Duplicate => Some(Ensuring.AlreadyExists)
    case BadName => Some(Ensuring.EnsureError.BadName)
    case RemoteError => Some(if listFails then Ensuring.ListFailed else Ensuring.CreateFailed)
  }

  /** A call whose two requests follow each other is the provisioning of a single caller: the same
      repositories, the same answer, for all failures from outside. */
  lemma {:induction false} Uninterrupted(images: seq<string>, s: State, i: nat, faults: Ensuring.Faults,
                                         w: Ensuring.World)
    requires |s.pcs| == |images| && i < |images| && s.pcs[i].Start?
    requires w.connected && w.repos == s.repos
    ensures var s' := Step(images, Step(images, s, Action(i, faults.list)), Action(i, faults.create));
            var alone := Ensuring.EnsureOnce(w, images[i], faults);
            && |s'.pcs| == |images| && s'.pcs[i].Done?
            && s'.repos == alone.world.repos
            && Verdict(s'.pcs[i].outcome, faults.list) == alone.err
            && s'.pcs[i].outcome != Duplicate
            && (s'.pcs[i] == Done(Created) <==> alone.world.created != w.created)
            && forall c :: 0 <= c < |images| && c != i ==> s'.pcs[c] == s.pcs[c]
  {
    var s1 := Step(images, s, Action(i, faults.list));
    if ParseRepository(images[i]).Some? && !faults.list {
      if ParseRepository(images[i]).value in s.repos {
        assert s1.pcs[i] == Done(Present);
      } else {
        assert s1.pcs[i].NotFound?;
      }
    } else {
      assert s1.pcs[i].Done?;
    }
  }
}
