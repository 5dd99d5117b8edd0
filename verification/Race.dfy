/** Any number of Ensure calls at once against one compartment. Listing and creating are two remote
    requests; between them other calls may go on. */
module Race {
  import opened Options
  import opened ImageName

  datatype Outcome = Present | Created | Duplicate | BadName | RemoteError

  /** Where a call is: not started, listed without finding its repository, or returned. */
  datatype Pc = Start | NotFound | Done(outcome: Outcome)

  /** What the compartment has seen, in order. */
  datatype Event =
    | Listed(call: nat, name: string, found: bool)
    | Made(call: nat, name: string)
    | Rejected(call: nat, name: string)

  datatype State = State(repos: set<string>, pcs: seq<Pc>, log: seq<Event>)

  /** The next remote request of a call, which may fail from outside. */
  datatype Action = Action(call: nat, fails: bool)

  function Initial(repos: set<string>, images: seq<string>): State
  {
    State(repos, seq(|images|, i => Start), [])
  }

  function Finish(s: State, i: nat, outcome: Outcome): State
    requires i < |s.pcs|
  {
    s.(pcs := s.pcs[i := Done(outcome)])
  }

  /** One request. Calls that have returned, and calls that do not exist, do nothing. */
  function Step(images: seq<string>, s: State, a: Action): State
    requires |s.pcs| == |images|
  {
    var i := a.call;
    if i >= |images| || s.pcs[i].Done? then s
    else
      match ParseRepository(images[i])
      case None => Finish(s, i, BadName)
      case Some(n) =>
        if a.fails then Finish(s, i, RemoteError)
        else if s.pcs[i].Start? then
          var s' := s.(log := s.log + [Listed(i, n, n in s.repos)]);
          if n in s.repos then Finish(s', i, Present) else s'.(pcs := s.pcs[i := NotFound])
        else if n in s.repos then
          Finish(s.(log := s.log + [Rejected(i, n)]), i, Duplicate)
        else
          Finish(s.(repos := s.repos + {n}, log := s.log + [Made(i, n)]), i, Created)
  }

  /** Any interleaving of the calls' requests. */
  function Run(repos: set<string>, images: seq<string>, actions: seq<Action>): (s: State)
    ensures |s.pcs| == |images|
  {
    if actions == [] then Initial(repos, images)
    else Step(images, Run(repos, images, actions[..|actions| - 1]), actions[|actions| - 1])
  }

  // ---------------------------------------------------------------- what the log says

  /** The k-th event creates the repository. */
  predicate MakesAt(log: seq<Event>, k: int, n: string)
  {
    0 <= k < |log| && log[k].Made? && log[k].name == n
  }

  /** The call listed without finding the repository at j. */
  predicate MissedAt(log: seq<Event>, j: int, i: nat, n: string)
  {
    0 <= j < |log| && log[j] == Listed(i, n, false)
  }

  /** Another call created the repository strictly between. */
  ghost predicate MadeBetween(log: seq<Event>, j: int, k: int, i: nat, n: string)
  {
    exists m :: j < m < k && MakesAt(log, m, n) && log[m].call != i
  }

  function MadeCount(log: seq<Event>): nat
  {
    if log == [] then 0
    else MadeCount(log[..|log| - 1]) + if log[|log| - 1].Made? then 1 else 0
  }

  /** The repositories are the initial ones and those made since. */
  ghost predicate ReposFollow(repos: set<string>, s: State)
  {
    && repos <= s.repos
    && (forall k :: 0 <= k < |s.log| && s.log[k].Made? ==> s.log[k].name in s.repos && s.log[k].name !in repos)
    && (forall n :: n in s.repos && n !in repos ==> exists k :: MakesAt(s.log, k, n))
  }

  /** No repository is made twice. */
  ghost predicate MadeOnce(log: seq<Event>)
  {
    forall j, k :: 0 <= j < k < |log| && log[j].Made? && log[k].Made? ==> log[j].name != log[k].name
  }

  /** No call lists twice. */
  ghost predicate ListedOnce(log: seq<Event>)
  {
    forall j, k :: 0 <= j < k < |log| && log[j].Listed? && log[k].Listed? ==> log[j].call != log[k].call
  }

  /** The call has made no request yet. */
  ghost predicate Unseen(log: seq<Event>, i: nat)
  {
    forall k :: 0 <= k < |log| ==> log[k].call != i
  }

  /** What is known of a call at its program counter. */
  ghost predicate CallKnown(images: seq<string>, s: State, i: nat)
    requires |s.pcs| == |images| && i < |images|
  {
    var n := ParseRepository(images[i]);
    match s.pcs[i]
    case Start => Unseen(s.log, i)
    case NotFound =>
      && n.Some?
      && (forall k :: 0 <= k < |s.log| && s.log[k].call == i ==> s.log[k].Listed?)
      && exists j :: MissedSince(s, j, i, n.value)
    case Done(outcome) =>
      && (outcome.BadName? <==> n.None?)
      && (outcome.Present? || outcome.Created? || outcome.Duplicate? ==> n.value in s.repos)
      && (outcome.Created? <==> exists k :: MadeBy(s.log, k, i))
      && (outcome.Duplicate? <==> exists k :: RejectedAt(s.log, k, i))
  }

  /** The call creates its repository at k. */
  predicate MadeBy(log: seq<Event>, k: int, i: nat)
  {
    0 <= k < |log| && log[k].Made? && log[k].call == i
  }

  /** The call was rejected at k. */
  predicate RejectedAt(log: seq<Event>, k: int, i: nat)
  {
    0 <= k < |log| && log[k].Rejected? && log[k].call == i
  }

  /** The call missed its repository at j, and it is there now exactly if another call has created
      it since. */
  ghost predicate MissedSince(s: State, j: int, i: nat, n: string)
  {
    MissedAt(s.log, j, i, n) && (n in s.repos <==> MadeBetween(s.log, j, |s.log|, i, n))
  }

  /** Every rejection follows a fruitless listing by the same call, with a creation by another call
      in between. */
  ghost predicate RejectionsExplained(log: seq<Event>)
  {
    forall k :: 0 <= k < |log| && log[k].Rejected? ==> RejectionExplained(log, k)
  }

  ghost predicate RejectionExplained(log: seq<Event>, k: nat)
    requires k < |log|
  {
    exists j :: 0 <= j < k && MissedAt(log, j, log[k].call, log[k].name)
                && MadeBetween(log, j, k, log[k].call, log[k].name)
  }

  ghost predicate Inv(repos: set<string>, images: seq<string>, s: State)
    requires |s.pcs| == |images|
  {
    && ReposFollow(repos, s)
    && MadeOnce(s.log)
    && ListedOnce(s.log)
    && |s.repos| == |repos| + MadeCount(s.log)
    && (forall i :: 0 <= i < |images| ==> CallKnown(images, s, i))
    && RejectionsExplained(s.log)
    && (forall k :: 0 <= k < |s.log| ==> s.log[k].call < |images|)
  }

  // ---------------------------------------------------------------- preservation

  /** The state after call i's request has added an event. */
  ghost predicate Grown(s: State, s': State, e: Event)
  {
    && s'.log == s.log + [e]
    && s'.repos == (if e.Made? then s.repos + {e.name} else s.repos)
    && |s'.pcs| == |s.pcs|
    && forall c :: 0 <= c < |s.pcs| && c != e.call ==> s'.pcs[c] == s.pcs[c]
  }

  lemma MadeBetweenGrows(log: seq<Event>, e: Event, j: int, i: nat, n: string)
    requires j < |log|
    ensures MadeBetween(log + [e], j, |log| + 1, i, n) <==>
            MadeBetween(log, j, |log|, i, n) || (e.Made? && e.name == n && e.call != i)
  {
    var more := log + [e];
    if MadeBetween(log, j, |log|, i, n) {
      var m :| j < m < |log| && MakesAt(log, m, n) && log[m].call != i;
      assert MakesAt(more, m, n);
    }
    if e.Made? && e.name == n && e.call != i {
      assert MakesAt(more, |log|, n);
    }
    if MadeBetween(more, j, |log| + 1, i, n) {
      var m :| j < m < |log| + 1 && MakesAt(more, m, n) && more[m].call != i;
      if m < |log| { assert MakesAt(log, m, n); }
    }
  }

  /** An event of one call keeps what is known of the others. */
  lemma {:induction false} OthersKeep(images: seq<string>, s: State, s': State, e: Event, c: nat)
    requires |s.pcs| == |images| && c < |images| && c != e.call
    requires Grown(s, s', e) && CallKnown(images, s, c)
    ensures |s'.pcs| == |images| && CallKnown(images, s', c)
  {
    var n := ParseRepository(images[c]);
    match s.pcs[c]
    case Start =>
    case NotFound =>
      var j :| MissedSince(s, j, c, n.value);
      MadeBetweenGrows(s.log, e, j, c, n.value);
      assert MissedSince(s', j, c, n.value);
    case Done(outcome) =>
      if outcome.Created? {
        var k :| MadeBy(s.log, k, c);
        assert MadeBy(s'.log, k, c);
      }
      if exists k :: MadeBy(s'.log, k, c) {
        var k :| MadeBy(s'.log, k, c);
        assert MadeBy(s.log, k, c);
      }
      assert forall k :: RejectedAt(s.log, k, c) <==> RejectedAt(s'.log, k, c);
  }

  lemma RejectionsKeep(log: seq<Event>, e: Event)
    requires RejectionsExplained(log)
    requires e.Rejected? ==> RejectionExplained(log + [e], |log|)
    ensures RejectionsExplained(log + [e])
  {
    var more := log + [e];
    forall k | 0 <= k < |more| && more[k].Rejected?
      ensures RejectionExplained(more, k)
    {
      if k < |log| {
        assert RejectionExplained(log, k);
        var j :| 0 <= j < k && MissedAt(log, j, log[k].call, log[k].name)
                 && MadeBetween(log, j, k, log[k].call, log[k].name);
        var m :| j < m < k && MakesAt(log, m, log[k].name) && log[m].call != log[k].call;
        assert MissedAt(more, j, more[k].call, more[k].name) && MakesAt(more, m, more[k].name);
      }
    }
  }

  /** Everything about the store itself, after one more event. */
  lemma {:induction false} StoreKeeps(repos: set<string>, s: State, s': State, e: Event)
    requires ReposFollow(repos, s) && MadeOnce(s.log) && |s.repos| == |repos| + MadeCount(s.log)
    requires Grown(s, s', e) && (e.Made? ==> e.name !in s.repos)
    ensures ReposFollow(repos, s') && MadeOnce(s'.log) && |s'.repos| == |repos| + MadeCount(s'.log)
  {
    assert s'.log[..|s'.log| - 1] == s.log;
    forall n | n in s'.repos && n !in repos
      ensures exists k :: MakesAt(s'.log, k, n)
    {
      if n in s.repos {
        var k :| MakesAt(s.log, k, n);
        assert MakesAt(s'.log, k, n);
      } else {
        assert MakesAt(s'.log, |s.log|, n);
      }
    }
  }

  /** The call that moved, at its new program counter. */
  lemma {:induction false} MoverKnown(images: seq<string>, s: State, i: nat, a: Action)
    requires |s.pcs| == |images| && i < |images| && a.call == i && !s.pcs[i].Done?
    requires CallKnown(images, s, i)
    ensures CallKnown(images, Step(images, s, a), i)
  {
    var s' := Step(images, s, a);
    var n := ParseRepository(images[i]);
    assert forall k :: !MadeBy(s.log, k, i) && !RejectedAt(s.log, k, i);
    if n.Some? && !a.fails {
      if s.pcs[i].Start? {
        if n.value !in s.repos {
          assert MissedSince(s', |s.log|, i, n.value);
        }
      } else if n.value !in s.repos {
        assert MadeBy(s'.log, |s.log|, i);
        assert forall k :: !RejectedAt(s'.log, k, i);
      } else {
        assert RejectedAt(s'.log, |s.log|, i);
        assert forall k :: !MadeBy(s'.log, k, i);
      }
    }
  }

  /** A rejection finds its explanation in the log. */
  lemma {:induction false} RejectionHasReason(images: seq<string>, s: State, i: nat, n: string)
    requires |s.pcs| == |images| && i < |images| && s.pcs[i].NotFound? && CallKnown(images, s, i)
    requires ParseRepository(images[i]) == Some(n) && n in s.repos
    ensures RejectionExplained(s.log + [Rejected(i, n)], |s.log|)
  {
    var more := s.log + [Rejected(i, n)];
    var j :| MissedSince(s, j, i, n);
    var m :| j < m < |s.log| && MakesAt(s.log, m, n) && s.log[m].call != i;
    var k := |s.log|;
    assert more[k] == Rejected(i, n) && more[m] == s.log[m];
    assert MakesAt(more, m, n) && MadeBetween(more, j, k, i, n);
    assert MissedAt(more, j, more[k].call, more[k].name);
  }

  /** An event that has its reason keeps the invariant. */
  lemma {:induction false} EventKeepsInv(repos: set<string>, images: seq<string>, s: State, s': State, e: Event)
    requires |s.pcs| == |s'.pcs| == |images| && Inv(repos, images, s) && Grown(s, s', e)
    requires e.call < |images| && CallKnown(images, s', e.call)
    requires e.Made? ==> e.name !in s.repos
    requires e.Listed? ==> Unseen(s.log, e.call)
    requires e.Rejected? ==> RejectionExplained(s.log + [e], |s.log|)
    ensures Inv(repos, images, s')
  {
    StoreKeeps(repos, s, s', e);
    RejectionsKeep(s.log, e);
    forall c | 0 <= c < |images|
      ensures CallKnown(images, s', c)
    {
      if c != e.call { OthersKeep(images, s, s', e, c); }
    }
  }

  /** So does a call that returns without an event. */
  lemma {:induction false} ReturnKeepsInv(repos: set<string>, images: seq<string>, s: State, s': State, i: nat)
    requires |s.pcs| == |s'.pcs| == |images| && Inv(repos, images, s)
    requires i < |images| && CallKnown(images, s', i)
    requires s'.log == s.log && s'.repos == s.repos
    requires forall c :: 0 <= c < |images| && c != i ==> s'.pcs[c] == s.pcs[c]
    ensures Inv(repos, images, s')
  {
    forall c | 0 <= c < |images|
      ensures CallKnown(images, s', c)
    {
      if c != i { SameLogKeeps(images, s, s', c); }
    }
  }

  /** One request keeps the invariant. */
  lemma {:induction false} StepKeepsInv(repos: set<string>, images: seq<string>, s: State, a: Action)
    requires |s.pcs| == |images| && Inv(repos, images, s)
    ensures |Step(images, s, a).pcs| == |images| && Inv(repos, images, Step(images, s, a))
  {
    var i := a.call;
    if i < |images| && !s.pcs[i].Done? {
      var s' := Step(images, s, a);
      assert CallKnown(images, s, i);
      MoverKnown(images, s, i, a);
      if ParseRepository(images[i]).None? || a.fails {
        ReturnKeepsInv(repos, images, s, s', i);
      } else {
        var e := RequestEvent(images, s, a);
        EventKeepsInv(repos, images, s, s', e);
      }
    }
  }

  /** The event a request adds to the log. */
  lemma {:induction false} RequestEvent(images: seq<string>, s: State, a: Action) returns (e: Event)
    requires |s.pcs| == |images| && a.call < |images| && !s.pcs[a.call].Done? && CallKnown(images, s, a.call)
    requires ParseRepository(images[a.call]).Some? && !a.fails
    ensures Grown(s, Step(images, s, a), e) && e.call == a.call
    ensures e.Made? ==> e.name !in s.repos
    ensures e.Listed? ==> Unseen(s.log, e.call)
    ensures e.Rejected? ==> RejectionExplained(s.log + [e], |s.log|)
  {
    var i, n := a.call, ParseRepository(images[a.call]).value;
    if s.pcs[i].Start? {
      e := Listed(i, n, n in s.repos);
    } else if n in s.repos {
      e := Rejected(i, n);
      RejectionHasReason(images, s, i, n);
    } else {
      e := Made(i, n);
    }
  }

  lemma {:induction false} SameLogKeeps(images: seq<string>, s: State, s': State, c: nat)
    requires |s.pcs| == |s'.pcs| == |images| && c < |images| && CallKnown(images, s, c)
    requires s'.log == s.log && s'.repos == s.repos && s'.pcs[c] == s.pcs[c]
    ensures CallKnown(images, s', c)
  {
    if s.pcs[c].NotFound? {
      var n := ParseRepository(images[c]).value;
      var j :| MissedSince(s, j, c, n);
      assert MissedSince(s', j, c, n);
    }
  }

  /** The invariant holds after every run. */
  lemma {:induction false} RunKeepsInv(repos: set<string>, images: seq<string>, actions: seq<Action>)
    ensures Inv(repos, images, Run(repos, images, actions))
  {
    if actions != [] {
      RunKeepsInv(repos, images, actions[..|actions| - 1]);
      StepKeepsInv(repos, images, Run(repos, images, actions[..|actions| - 1]), actions[|actions| - 1]);
    }
  }

  // ---------------------------------------------------------------- theorems

  /** Every event is about the name of its call. */
  ghost predicate EventsNamed(images: seq<string>, log: seq<Event>)
  {
    forall k :: 0 <= k < |log| ==> log[k].call < |images| && ParseRepository(images[log[k].call]) == Some(log[k].name)
  }

  lemma {:induction false} RunEventsNamed(repos: set<string>, images: seq<string>, actions: seq<Action>)
    ensures EventsNamed(images, Run(repos, images, actions).log)
  {
    if actions != [] {
      RunEventsNamed(repos, images, actions[..|actions| - 1]);
    }
  }

  /** The names of the repositories made so far. */
  ghost function MadeNames(log: seq<Event>): set<string>
  {
    set k | 0 <= k < |log| && log[k].Made? :: log[k].name
  }

  /** Over every run: no repository is created twice, none that was there is created at all, and the
      compartment holds what it held before and what was created, nothing else. */
  lemma {:induction false} CreatedAtMostOnce(repos: set<string>, images: seq<string>, actions: seq<Action>)
    ensures var s := Run(repos, images, actions);
            && MadeOnce(s.log)
            && s.repos == repos + MadeNames(s.log) && repos !! MadeNames(s.log)
            && |s.repos| - |repos| == MadeCount(s.log)
  {
    RunKeepsInv(repos, images, actions);
    var s := Run(repos, images, actions);
    forall n | n in s.repos && n !in repos
      ensures n in MadeNames(s.log)
    {
      var k :| MakesAt(s.log, k, n);
    }
  }

  /** Over every run: of all calls for one repository at most one returns having created it, and none
      does when the repository was there before. */
  lemma {:induction false} OneCreator(repos: set<string>, images: seq<string>, actions: seq<Action>, i: nat, j: nat)
    requires i < |images| && j < |images| && ParseRepository(images[i]) == ParseRepository(images[j])
    requires Run(repos, images, actions).pcs[i] == Run(repos, images, actions).pcs[j] == Done(Created)
    ensures i == j && ParseRepository(images[i]).Some? && ParseRepository(images[i]).value !in repos
  {
    RunKeepsInv(repos, images, actions);
    RunEventsNamed(repos, images, actions);
    var s := Run(repos, images, actions);
    assert CallKnown(images, s, i) && CallKnown(images, s, j);
    var k :| MadeBy(s.log, k, i);
    var m :| MadeBy(s.log, m, j);
    assert s.log[k].name == s.log[m].name;
  }

  /** Over every run: a call that returned without error, or with a duplicate rejection, leaves its
      repository there. */
  lemma {:induction false} FinishedLeavesRepository(repos: set<string>, images: seq<string>,
                                                    actions: seq<Action>, i: nat)
    requires i < |images|
    ensures var pc := Run(repos, images, actions).pcs[i];
            pc.Done? && (pc.outcome.Present? || pc.outcome.Created? || pc.outcome.Duplicate?) ==>
              var n := ParseRepository(images[i]);
              n.Some? && n.value in Run(repos, images, actions).repos
  {
    RunKeepsInv(repos, images, actions);
    assert CallKnown(images, Run(repos, images, actions), i);
  }

  /** Over every run: a call that is about to create has listed its repository once, without finding
      it, and its create request is rejected if and only if another call has created the same
      repository since. */
  lemma {:induction false} RejectedIffRaced(repos: set<string>, images: seq<string>, actions: seq<Action>, i: nat)
    requires i < |images| && Run(repos, images, actions).pcs[i].NotFound?
    ensures var s, n := Run(repos, images, actions), ParseRepository(images[i]);
            && n.Some?
            && (exists j :: MissedAt(s.log, j, i, n.value))
            && forall j :: 0 <= j < |s.log| && s.log[j].call == i ==>
                 && MissedAt(s.log, j, i, n.value)
                 && (Step(images, s, Action(i, false)).pcs[i] == Done(Duplicate)
                     <==> MadeBetween(s.log, j, |s.log|, i, n.value))
  {
    RunKeepsInv(repos, images, actions);
    var s := Run(repos, images, actions);
    assert CallKnown(images, s, i);
    var j :| MissedSince(s, j, i, ParseRepository(images[i]).value);
    assert MissedAt(s.log, j, i, ParseRepository(images[i]).value);
    forall k | 0 <= k < |s.log| && s.log[k].call == i
      ensures k == j
    {
      assert s.log[k].Listed? && s.log[j].Listed?;
    }
  }

  /** Over every run: every rejection in the log has its fruitless listing and, in between, the
      creation by another call. */
  lemma {:induction false} RejectionsAreRaces(repos: set<string>, images: seq<string>, actions: seq<Action>, k: nat)
    requires k < |Run(repos, images, actions).log| && Run(repos, images, actions).log[k].Rejected?
    ensures RejectionExplained(Run(repos, images, actions).log, k)
  {
    RunKeepsInv(repos, images, actions);
  }

  /** The call has returned having created the repository. */
  predicate Creator(images: seq<string>, s: State, i: nat, n: string)
    requires |s.pcs| == |images|
  {
    i < |images| && ParseRepository(images[i]) == Some(n) && s.pcs[i] == Done(Created)
  }

  /** When all calls have returned and none met a remote error, the compartment holds what it held
      before and the repositories of all valid references, whatever the interleaving, and for each
      one that was missing there is a call that returned having created it. */
  lemma {:induction false} AllReturned(repos: set<string>, images: seq<string>, actions: seq<Action>)
    requires forall i :: 0 <= i < |images| ==>
               var pc := Run(repos, images, actions).pcs[i]; pc.Done? && !pc.outcome.RemoteError?
    ensures Run(repos, images, actions).repos == repos + NamesOf(images)
    ensures forall n :: n in NamesOf(images) && n !in repos ==>
              exists i :: Creator(images, Run(repos, images, actions), i, n)
  {
    var s := Run(repos, images, actions);
    RunKeepsInv(repos, images, actions);
    RunEventsNamed(repos, images, actions);
    forall n | n in NamesOf(images)
      ensures n in s.repos
    {
      var i :| 0 <= i < |images| && ParseRepository(images[i]) == Some(n);
      assert CallKnown(images, s, i);
    }
    forall n | n in s.repos && n !in repos
      ensures n in NamesOf(images) && exists i :: Creator(images, s, i, n)
    {
      var k :| MakesAt(s.log, k, n);
      var c := s.log[k].call;
      assert ParseRepository(images[c]) == Some(n);
      assert CallKnown(images, s, c) && MadeBy(s.log, k, c);
      assert Creator(images, s, c, n);
    }
  }
}
