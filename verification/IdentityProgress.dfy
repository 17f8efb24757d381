/** Where each request of the identity protocol ends when nothing fails, and what it leaves behind. */
module IdentityProgress {
  import opened IdentityProtocol
  import opened IdentityRuns

  function Attempt(p: nat, s: nat, kind: Kind, named: bool, steps: nat): seq<Action> {
    [Start(p, s, kind, named)] + Repeat(Advance(p), steps)
  }

  /** The state after a request, with nothing but its own process, the database and the events changed. */
  function Ended(sys: System, p: nat, s: nat, kind: Kind, named: bool, phase: Phase, db: Db, events: seq<Event>): System {
    System(db, sys.processes[p := Process(s, kind, named, phase)], sys.locks, events)
  }

  /** A tombstoned subject's transaction, from its start to its end: a deletion skips, anything else fails. */
  lemma Turned(sys: System, p: nat, s: nat, kind: Kind, named: bool) returns (end: System)
    requires p !in sys.processes && s !in sys.locks && s in sys.db.tombstones
    ensures end == NextTimes(Next(sys, Start(p, s, kind, named)), Advance(p), if kind.Delete? then 3 else 2)
    ensures var phase := if kind == Delete(false) then CognitoPending else if kind == Delete(true) then Returned else Failed;
            end == Ended(sys, p, s, kind, named, phase, sys.db, sys.events)
  {
    var start, a := Next(sys, Start(p, s, kind, named)), Advance(p);
    var locked := Process(s, kind, named, Locked);
    Begins(sys, s, kind, named, p);
    var first := Underway(sys, locked, p);
    assert NextTimes(start, a, 1) == first;
    if kind.Delete? {
      UnderwayMoves(sys, locked, p, Skipping);
      var skipping := locked.(phase := Skipping);
      assert Next(first, a) == Underway(sys, skipping, p);
      UnderwayMoves(sys, skipping, p, if kind == Delete(true) then Returned else CognitoPending);
      end := Next(Underway(sys, skipping, p), a);
      hide Next, Underway;
      assert NextTimes(start, a, 2) == Underway(sys, skipping, p);
    } else {
      UnderwayMoves(sys, locked, p, Failed);
      end := Next(first, a);
    }
  }

  /** The step that asks Cognito to delete the user. */
  lemma CognitoStep(sys: System, p: nat, s: nat, named: bool, db: Db, events: seq<Event>)
    requires p !in sys.processes
    ensures Next(Ended(sys, p, s, Delete(false), named, CognitoPending, db, events), Advance(p)) ==
            if named then Ended(sys, p, s, Delete(false), named, Returned, db.(cognito := db.cognito - {s}), events)
            else Ended(sys, p, s, Delete(false), named, Failed, db, events)
  {
    var pending := sys.processes[p := Process(s, Delete(false), named, CognitoPending)];
    assert pending[p := Process(s, Delete(false), named, Returned)] == sys.processes[p := Process(s, Delete(false), named, Returned)];
    assert pending[p := Process(s, Delete(false), named, Failed)] == sys.processes[p := Process(s, Delete(false), named, Failed)];
  }

  /** A deletion retried after the data is gone removes the Cognito user, returns, and changes nothing else; without a
      username it fails and changes nothing. */
  lemma RetriedDeletionEnds(sys: System, p: nat, s: nat, named: bool)
    requires p !in sys.processes && s !in sys.locks && s in sys.db.tombstones
    ensures var end := Run(sys, Attempt(p, s, Delete(false), named, 4));
            && end.processes == sys.processes[p := Process(s, Delete(false), named, if named then Returned else Failed)]
            && end.locks == sys.locks && end.events == sys.events
            && end.db.cognito == (if named then sys.db.cognito - {s} else sys.db.cognito)
            && end.db.mapping == sys.db.mapping && end.db.profiles == sys.db.profiles
            && end.db.sessions == sys.db.sessions && end.db.tombstones == sys.db.tombstones
  {
    hide Next, Run;
    var skipped := Turned(sys, p, s, Delete(false), named);
    CognitoStep(sys, p, s, named, sys.db, sys.events);
    RunRepeat(sys, Start(p, s, Delete(false), named), Advance(p), 4);
  }

  /** A demo deletion of a tombstoned subject returns, and provisioning or upgrading it fails; the database is left alone. */
  lemma TombstonedRequestsEnd(sys: System, p: nat, s: nat, kind: Kind, named: bool)
    requires p !in sys.processes && s !in sys.locks && s in sys.db.tombstones && kind != Delete(false)
    ensures var end := Run(sys, Attempt(p, s, kind, named, if kind.Delete? then 3 else 2));
            && end.processes == sys.processes[p := Process(s, kind, named, if kind.Delete? then Returned else Failed)]
            && end.locks == sys.locks && end.events == sys.events && end.db == sys.db
  {
    hide Next, Run;
    var end := Turned(sys, p, s, kind, named);
    RunRepeat(sys, Start(p, s, kind, named), Advance(p), if kind.Delete? then 3 else 2);
  }

  /** The database without a user: its profile is gone, its guest sessions are, and so are exactly the mappings to it. */
  ghost predicate UserIsGone(db: Db, db': Db, u: UserId) {
    && u !in db'.profiles && (forall v | v != u :: v in db'.profiles <==> v in db.profiles)
    && (forall g :: g in db'.sessions <==> g in db.sessions && u != Guest(g))
    && (forall t :: t in db'.mapping <==> t in db.mapping && db.mapping[t] != u)
    && (forall t | t in db'.mapping :: db'.mapping[t] == db.mapping[t])
  }

  lemma DeletingRemovesTheUser(db: Db, u: UserId)
    ensures UserIsGone(db, DeleteUser(db, u), u)
    ensures DeleteUser(db, u).tombstones == db.tombstones && DeleteUser(db, u).cognito == db.cognito
  {
  }

  /** Up to its commit a deletion of a subject without tombstone has written nothing. */
  lemma Erasing(sys: System, p: nat, s: nat, demo: bool, named: bool) returns (end: System)
    requires p !in sys.processes && s !in sys.locks && s !in sys.db.tombstones
    ensures end == NextTimes(Next(sys, Start(p, s, Delete(demo), named)), Advance(p), if demo then 5 else 6)
    ensures var u := if s in sys.db.mapping then sys.db.mapping[s] else Own(s);
            var gone := DeleteUser(sys.db, u);
            end == Ended(sys, p, s, Delete(demo), named, if demo then Returned else CognitoPending,
                         if demo then gone else gone.(tombstones := sys.db.tombstones + {s}),
                         sys.events + [DataDeleted(s, u, !demo)])
  {
    var a, start := Advance(p), Next(sys, Start(p, s, Delete(demo), named));
    var u, loaded := LoadsUser(sys, s, Delete(demo), named, p);
    var process := Process(s, Delete(demo), named, Loaded(u, s in sys.db.mapping));
    var erased, marked := process.(phase := Erased(u)), process.(phase := Marked(u));
    UnderwayAdvances(sys, process, p, Erased(u));
    if demo {
      UnderwayMoves(sys, erased, p, Returned);
      end := Next(Underway(sys, erased, p), a);
      assert end == CommitDelete(Underway(sys, erased, p), p, u, true);
      hide Next, Underway;
      assert NextTimes(start, a, 4) == Underway(sys, erased, p);
    } else {
      UnderwayAdvances(sys, erased, p, Marked(u));
      UnderwayMoves(sys, marked, p, CognitoPending);
      end := Next(Underway(sys, marked, p), a);
      assert end == CommitDelete(Underway(sys, marked, p), p, u, false);
      hide Next, Underway;
      assert NextTimes(start, a, 4) == Underway(sys, erased, p);
      assert NextTimes(start, a, 5) == Underway(sys, marked, p);
    }
  }

  /** A first real deletion, run to its end: the user the subject resolves to is gone, the tombstone is set, and the
      Cognito user is gone and the call returns, or without a username stays and the call fails. */
  lemma FirstDeletionEnds(sys: System, p: nat, s: nat, named: bool)
    requires p !in sys.processes && s !in sys.locks && s !in sys.db.tombstones
    ensures var end, u := Run(sys, Attempt(p, s, Delete(false), named, 7)), if s in sys.db.mapping then sys.db.mapping[s] else Own(s);
            && end.processes == sys.processes[p := Process(s, Delete(false), named, if named then Returned else Failed)]
            && end.locks == sys.locks && end.events == sys.events + [DataDeleted(s, u, true)]
            && UserIsGone(sys.db, end.db, u) && end.db.tombstones == sys.db.tombstones + {s}
            && end.db.cognito == (if named then sys.db.cognito - {s} else sys.db.cognito)
  {
    hide Next, Run, UserIsGone, DeleteUser;
    var erased := Erasing(sys, p, s, false, named);
    CognitoStep(sys, p, s, named, erased.db, erased.events);
    var u := if s in sys.db.mapping then sys.db.mapping[s] else Own(s);
    DeletingRemovesTheUser(sys.db, u);
    GoneDependsOnTheTables(sys.db, DeleteUser(sys.db, u), Run(sys, Attempt(p, s, Delete(false), named, 7)).db, u);
    RunRepeat(sys, Start(p, s, Delete(false), named), Advance(p), 7);
  }

  lemma GoneDependsOnTheTables(db: Db, db': Db, db'': Db, u: UserId)
    requires UserIsGone(db, db', u)
    ensures db''.profiles == db'.profiles && db''.sessions == db'.sessions && db''.mapping == db'.mapping ==> UserIsGone(db, db'', u)
  {
  }

  /** A demo deletion, run to its end: the user is gone, but the subject gets no tombstone and keeps its Cognito user. */
  lemma DemoDeletionEnds(sys: System, p: nat, s: nat, named: bool)
    requires p !in sys.processes && s !in sys.locks && s !in sys.db.tombstones
    ensures var end, u := Run(sys, Attempt(p, s, Delete(true), named, 5)), if s in sys.db.mapping then sys.db.mapping[s] else Own(s);
            && end.processes == sys.processes[p := Process(s, Delete(true), named, Returned)]
            && end.locks == sys.locks && end.events == sys.events + [DataDeleted(s, u, false)]
            && UserIsGone(sys.db, end.db, u) && end.db.tombstones == sys.db.tombstones && end.db.cognito == sys.db.cognito
  {
    hide Next, Run, UserIsGone, DeleteUser;
    var end := Erasing(sys, p, s, true, named);
    DeletingRemovesTheUser(sys.db, if s in sys.db.mapping then sys.db.mapping[s] else Own(s));
    RunRepeat(sys, Start(p, s, Delete(true), named), Advance(p), 5);
  }

  /** A provisioning, run to its end: the profile exists, and the subject is mapped, to itself if it had no mapping. */
  lemma ProvisioningEnds(sys: System, p: nat, s: nat, named: bool)
    requires p !in sys.processes && s !in sys.locks && s !in sys.db.tombstones
    ensures var u := if s in sys.db.mapping then sys.db.mapping[s] else Own(s);
            var end := Run(sys, Attempt(p, s, Provision, named, if s in sys.db.mapping then 5 else 6));
            && end.processes == sys.processes[p := Process(s, Provision, named, Returned)]
            && end.locks == sys.locks && end.events == sys.events + [Provisioned(s, u)]
            && end.db.profiles == sys.db.profiles + {u} && end.db.mapping == sys.db.mapping[s := u]
            && end.db.sessions == sys.db.sessions && end.db.tombstones == sys.db.tombstones && end.db.cognito == sys.db.cognito
  {
    var a, start := Advance(p), Next(sys, Start(p, s, Provision, named));
    var mapped := s in sys.db.mapping;
    RunRepeat(sys, Start(p, s, Provision, named), a, if mapped then 5 else 6);
    var u, loaded := LoadsUser(sys, s, Provision, named, p);
    var process := Process(s, Provision, named, Loaded(u, mapped));
    var profiled, bound := process.(phase := Profiled(u, mapped)), process.(phase := Bound(u));
    UnderwayAdvances(sys, process, p, Profiled(u, mapped));
    var last := if mapped then profiled else bound;
    if !mapped {
      UnderwayAdvances(sys, profiled, p, Bound(u));
    }
    UnderwayMoves(sys, last, p, Returned);
    var end := Next(Underway(sys, last, p), a);
    assert end == CommitProvision(Underway(sys, last, p), p, u, !mapped);
    assert sys.db.mapping[s := u] == if mapped then sys.db.mapping else sys.db.mapping[s := Own(s)];
    hide Next, Underway, Run;
    assert NextTimes(start, a, 4) == Underway(sys, profiled, p);
    assert !mapped ==> NextTimes(start, a, 5) == Underway(sys, bound, p);
  }

  /** A binding upgrade, run to its end. A mapped subject keeps its user. An unmapped one that has a profile of its own is
      mapped to itself, any other one to the guest, if the guest's session is live and the profile exists; otherwise the
      upgrade fails. Nothing but the mapping changes; the session stays live. */
  lemma UpgradeEnds(sys: System, p: nat, s: nat, g: nat, named: bool)
    requires p !in sys.processes && s !in sys.locks && s !in sys.db.tombstones
    ensures var mapped := s in sys.db.mapping;
            var u := if Own(s) in sys.db.profiles then Own(s) else Guest(g);
            var end := Run(sys, Attempt(p, s, Upgrade(g), named, if mapped then 4 else 5));
            var binds := !mapped && g in sys.db.sessions && u in sys.db.profiles;
            && end.processes == sys.processes[p := Process(s, Upgrade(g), named, if mapped || binds then Returned else Failed)]
            && end.locks == sys.locks
            && end.db == (if binds then sys.db.(mapping := sys.db.mapping[s := u]) else sys.db)
            && end.events == (if binds then sys.events + [Linked(s, u)] else sys.events)
  {
    var a, start, mapped := Advance(p), Next(sys, Start(p, s, Upgrade(g), named)), s in sys.db.mapping;
    RunRepeat(sys, Start(p, s, Upgrade(g), named), a, if mapped then 4 else 5);
    var user, loaded := LoadsUser(sys, s, Upgrade(g), named, p);
    var process := Process(s, Upgrade(g), named, Loaded(user, mapped));
    if mapped {
      UnderwayMoves(sys, process, p, Returned);
      assert Next(loaded, a) == Finish(loaded, p, Returned);
      hide Next, Underway, Run;
    } else {
      var u := if Own(s) in sys.db.profiles then Own(s) else Guest(g);
      UnderwayAdvances(sys, process, p, Bound(u));
      var bound := process.(phase := Bound(u));
      UnderwayMoves(sys, bound, p, Returned);
      UnderwayMoves(sys, bound, p, Failed);
      assert Next(Underway(sys, bound, p), a) == CommitLink(Underway(sys, bound, p), p, u, g);
      hide Next, Underway, Run;
      assert NextTimes(start, a, 4) == Underway(sys, bound, p);
    }
  }

  /** A merging upgrade, run to its end: an unmapped subject's fails; one whose subject has taken over that very guest
      returns and changes nothing; any other removes the guest, its sessions and exactly the mappings to it, if the
      guest's session is live and both profiles exist, and fails otherwise. */
  lemma MergeEnds(sys: System, p: nat, s: nat, g: nat, named: bool)
    requires p !in sys.processes && s !in sys.locks && s !in sys.db.tombstones
    ensures var settled := s !in sys.db.mapping || sys.db.mapping[s] == Guest(g);
            var end := Run(sys, Attempt(p, s, Merge(g), named, if settled then 4 else 5));
            var merges := !settled && g in sys.db.sessions && Guest(g) in sys.db.profiles && sys.db.mapping[s] in sys.db.profiles;
            && end.processes == sys.processes[p := Process(s, Merge(g), named,
                                                           if merges || (settled && s in sys.db.mapping) then Returned else Failed)]
            && end.locks == sys.locks
            && (if merges then
                  && UserIsGone(sys.db, end.db, Guest(g))
                  && end.db.tombstones == sys.db.tombstones && end.db.cognito == sys.db.cognito
                  && end.events == sys.events + [Merged(s, sys.db.mapping[s], g)]
                else end.db == sys.db && end.events == sys.events)
  {
    var a, start := Advance(p), Next(sys, Start(p, s, Merge(g), named));
    var mapped := s in sys.db.mapping;
    var settled := !mapped || sys.db.mapping[s] == Guest(g);
    RunRepeat(sys, Start(p, s, Merge(g), named), a, if settled then 4 else 5);
    var user, loaded := LoadsUser(sys, s, Merge(g), named, p);
    var process := Process(s, Merge(g), named, Loaded(user, mapped));
    DeletingRemovesTheUser(sys.db, Guest(g));
    if settled {
      var phase := if mapped then Returned else Failed;
      UnderwayMoves(sys, process, p, phase);
      assert Next(loaded, a) == Finish(loaded, p, phase);
      hide Next, Underway, Run, UserIsGone;
    } else {
      UnderwayAdvances(sys, process, p, Merging(user));
      var merging := process.(phase := Merging(user));
      UnderwayMoves(sys, merging, p, Returned);
      UnderwayMoves(sys, merging, p, Failed);
      assert Next(Underway(sys, merging, p), a) == CommitMerge(Underway(sys, merging, p), p, user, g);
      hide Next, Underway, Run, UserIsGone, DeleteUser;
      assert NextTimes(start, a, 4) == Underway(sys, merging, p);
    }
  }

  /** A guest is dropped at its own request exactly if its session is live and it is nobody's account. */
  lemma GuestDropEnds(sys: System, g: nat)
    ensures var end := Next(sys, DropGuest(g));
            && end.processes == sys.processes && end.locks == sys.locks && end.events == sys.events
            && (if g in sys.db.sessions && Guest(g) in sys.db.profiles && forall s | s in sys.db.mapping :: sys.db.mapping[s] != Guest(g)
                then UserIsGone(sys.db, end.db, Guest(g))
                     && end.db.tombstones == sys.db.tombstones && end.db.cognito == sys.db.cognito
                else end.db == sys.db)
  {
    DeletingRemovesTheUser(sys.db, Guest(g));
  }

  /** A failure rolls the transaction back and frees the lock; a lost reply has only removed the Cognito user; and a
      request is authenticated as the mapped user, or as the subject itself where there is no mapping. */
  lemma OtherActionsMean(sys: System, p: nat, s: nat)
    ensures Next(sys, Fail(p)).db == sys.db && Next(sys, Fail(p)).events == sys.events
    ensures p in sys.processes && InTransaction(sys.processes[p].phase) ==>
              Next(sys, Fail(p)).locks == sys.locks - {sys.processes[p].subject} && Next(sys, Fail(p)).processes[p].phase == Failed
    ensures p in sys.processes ==>
              Next(sys, LoseReply(p)).db == sys.db
              || Next(sys, LoseReply(p)).db == sys.db.(cognito := sys.db.cognito - {sys.processes[p].subject})
    ensures Next(sys, Authenticate(s)) ==
            sys.(events := sys.events + [Authenticated(s, if s in sys.db.mapping then sys.db.mapping[s] else Own(s))])
  {
  }
}
