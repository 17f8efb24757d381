/** Whether provisioning, deletion and request authentication agree about whom a subject is. They do in every run whose
    guest upgrades take only guests that are nobody's; the code does not ask, and any upgrade that takes another one
    breaks agreement. The conditions on the starting state under which no run can do so are exact. */
module IdentityAgreement {
  import opened IdentityProtocol
  import opened IdentityRuns

  ghost predicate Exclusive(db: Db) {
    forall s, t | s in db.mapping && t in db.mapping && s != t :: db.mapping[s] != db.mapping[t]
  }

  /** A subject is mapped to itself or to a guest account, never to another subject. */
  ghost predicate OwnIdsStayOwn(db: Db) {
    forall s | s in db.mapping :: db.mapping[s].Own? ==> db.mapping[s] == Own(s)
  }

  /** Where the account of a subject changes: its deletion, and its taking over a guest account. */
  predicate Boundary(e: Event, s: nat) {
    e.subject == s && (e.DataDeleted? || (e.Linked? && e.user.Guest?))
  }

  ghost predicate NoBoundaryAfter(events: seq<Event>, i: nat, s: nat) {
    forall k | i < k < |events| :: !Boundary(events[k], s)
  }

  /** Two events of one life of a subject's account, the later one possibly the deletion that ends it. */
  ghost predicate SameLife(events: seq<Event>, i: nat, j: nat) {
    && i < j < |events| && events[i].subject == events[j].subject
    && !events[i].DataDeleted? && !(events[j].Linked? && events[j].user.Guest?)
    && forall k | i < k < j :: !Boundary(events[k], events[i].subject)
  }

  ghost predicate Agreed(events: seq<Event>) {
    forall i: nat, j: nat | SameLife(events, i, j) :: events[i].user == events[j].user
  }

  /** Besides, the events of the present life of a subject name its present user id. */
  ghost predicate EventsMatch(db: Db, events: seq<Event>) {
    && Agreed(events)
    && forall i | 0 <= i < |events| && !events[i].DataDeleted? && NoBoundaryAfter(events, i, events[i].subject) ::
         events[i].user == Resolve(db, events[i].subject)
  }

  /** What a process has read about its subject's mapping stays true until its transaction ends. */
  ghost predicate ReadsStayTrue(db: Db, process: Process) {
    var s := process.subject;
    match process.phase
    case Loaded(user, mapped) => user == Resolve(db, s) && (mapped <==> s in db.mapping)
    case Profiled(user, mapped) => user == Resolve(db, s) && (mapped <==> s in db.mapping)
    case Bound(user) => s !in db.mapping && (user == Own(s) || (process.kind.Upgrade? && user == Guest(process.kind.guest)))
    case Erased(user) => user == Resolve(db, s)
    case Marked(user) => user == Resolve(db, s)
    case Merging(user) => user == Resolve(db, s) && process.kind.Merge? && user != Guest(process.kind.guest)
    case _ => true
  }

  ghost predicate Inv(sys: System) {
    && Safe(sys) && Exclusive(sys.db) && OwnIdsStayOwn(sys.db)
    && (forall p | p in sys.processes :: ReadsStayTrue(sys.db, sys.processes[p]))
    && EventsMatch(sys.db, sys.events)
  }

  /** Deleting a subject's user changes no other subject's resolution. */
  lemma DeleteUserIsLocal(db: Db, s: nat, t: nat)
    requires Exclusive(db) && OwnIdsStayOwn(db) && s != t
    ensures var db' := DeleteUser(db, Resolve(db, s));
            Resolve(db', t) == Resolve(db, t) && (t in db'.mapping <==> t in db.mapping)
  {
    assert Resolve(db, s) != Resolve(db, t);
  }

  lemma {:induction false} EventAppends(db: Db, db': Db, events: seq<Event>, e: Event)
    requires EventsMatch(db, events)
    requires forall s | !Boundary(e, s) :: Resolve(db', s) == Resolve(db, s)
    requires e.user == Resolve(if e.DataDeleted? then db else db', e.subject)
    ensures EventsMatch(db', events + [e])
  {
    hide Resolve;
    var events' := events + [e];
    forall i: nat, j: nat | SameLife(events', i, j) ensures events'[i].user == events'[j].user {
      if j < |events| {
        assert forall k | i < k < j :: events'[k] == events[k];
        assert SameLife(events, i, j);
      } else {
        assert forall k | i < k < |events| :: events'[k] == events[k];
        assert NoBoundaryAfter(events, i, events[i].subject);
      }
    }
    forall i | 0 <= i < |events'| && !events'[i].DataDeleted? && NoBoundaryAfter(events', i, events'[i].subject)
      ensures events'[i].user == Resolve(db', events'[i].subject)
    {
      if i < |events| {
        assert forall k | i < k < |events| :: events'[k] == events[k];
        assert NoBoundaryAfter(events, i, events[i].subject);
        assert events'[|events|] == e;
      }
    }
  }

  lemma EventsUnchanged(db: Db, db': Db, events: seq<Event>)
    requires EventsMatch(db, events) && db'.mapping == db.mapping
    ensures EventsMatch(db', events)
  {
  }

  /** The event of an upgrade, binding or merging, that takes the guest account u. */
  predicate Takes(e: Event, u: UserId) {
    (e.Linked? && e.user == u && u.Guest?) || (e.Merged? && u == Guest(e.guest))
  }

  /** The check an upgrade would have to make: the guest it takes is nobody's account. */
  ghost predicate GuardHolds(sys: System, a: Action) {
    forall e, u | Next(sys, a).events == sys.events + [e] && Takes(e, u) :: u !in sys.db.mapping.Values
  }

  lemma MovesTo(sys: System, p: nat)
    requires p in sys.processes
    ensures forall phase :: Move(sys, p, phase).db == sys.db
    ensures forall phase :: Move(sys, p, phase).processes[p] == sys.processes[p].(phase := phase)
    ensures forall phase :: Finish(sys, p, phase).processes[p].phase == phase
    ensures forall user, flag :: !InTransaction(CommitDelete(sys, p, user, flag).processes[p].phase)
    ensures forall user, flag :: !InTransaction(CommitProvision(sys, p, user, flag).processes[p].phase)
    ensures forall user, guest :: !InTransaction(CommitLink(sys, p, user, guest).processes[p].phase)
    ensures forall user, guest :: !InTransaction(CommitMerge(sys, p, user, guest).processes[p].phase)
  {
  }

  /** Outside a transaction nothing is remembered. */
  lemma NothingRead(db: Db, process: Process)
    requires !InTransaction(process.phase)
    ensures ReadsStayTrue(db, process) && ReadsFit(db, process)
  {
  }

  /** A step inside a transaction that does not end it writes nothing and remembers what it read. */
  ghost predicate Continues(db: Db, process: Process, next: Phase) {
    var phase, s := process.phase, process.subject;
    match next
    case Loaded(user, mapped) => user == Resolve(db, s) && (mapped <==> s in db.mapping)
    case Profiled(user, mapped) => phase == Loaded(user, mapped)
    case Erased(user) => phase.Loaded? && phase.user == user
    case Marked(user) => phase == Erased(user)
    case Merging(user) => phase == Loaded(user, true) && process.kind.Merge? && user != Guest(process.kind.guest)
    case Bound(user) =>
      || phase == Profiled(user, false)
      || (phase.Loaded? && !phase.mapped && process.kind.Upgrade? && (user == Own(s) || user == Guest(process.kind.guest)))
    case _ => true
  }

  lemma NoCommitNoChange(sys: System, p: nat)
    requires p in sys.processes && InTransaction(sys.processes[p].phase)
    requires InTransaction(Advanced(sys, p).processes[p].phase)
    ensures Advanced(sys, p).db == sys.db && Continues(sys.db, sys.processes[p], Advanced(sys, p).processes[p].phase)
  {
    hide Move, Finish, CommitDelete, CommitProvision, CommitLink, CommitMerge, Resolve;
    MovesTo(sys, p);
  }

  lemma AdvancedReads(sys: System, p: nat)
    requires Inv(sys) && p in sys.processes
    ensures ReadsStayTrue(Advanced(sys, p).db, Advanced(sys, p).processes[p])
  {
    hide Safe, EventsMatch, Exclusive, OwnIdsStayOwn, Advanced, PhaseFits;
    assert ReadsStayTrue(sys.db, sys.processes[p]);
    ProfiledProvisions(sys, p);
    var process, sys' := sys.processes[p], Advanced(sys, p);
    AdvanceIsAStep(sys, p);
    if !InTransaction(sys'.processes[p].phase) {
      NothingRead(sys'.db, sys'.processes[p]);
    } else if !InTransaction(process.phase) {
      BeginsLocked(sys, p);
    } else {
      NoCommitNoChange(sys, p);
    }
  }

  lemma ProfiledProvisions(sys: System, p: nat)
    requires Safe(sys) && p in sys.processes
    ensures sys.processes[p].phase.Profiled? ==> sys.processes[p].kind.Provision?
  {
    assert PhaseFits(sys.db, sys.processes[p]);
  }

  lemma BeginsLocked(sys: System, p: nat)
    requires p in sys.processes && !InTransaction(sys.processes[p].phase) && InTransaction(Advanced(sys, p).processes[p].phase)
    ensures Advanced(sys, p).processes[p].phase == Locked
  {
    hide CommitDelete, CommitProvision, CommitLink, CommitMerge;
  }

  /** One step of p that keeps the guard changes the mapping of no other subject and accounts for what it does to its own. */
  lemma AdvanceIsLocal(sys: System, p: nat)
    requires Inv(sys) && p in sys.processes && GuardHolds(sys, Advance(p))
    ensures var sys', s := Advanced(sys, p), sys.processes[p].subject;
            && OwnIdsStayOwn(sys'.db) && Exclusive(sys'.db)
            && (forall t | t != s :: Resolve(sys'.db, t) == Resolve(sys.db, t) && (t in sys'.db.mapping <==> t in sys.db.mapping))
            && (!InTransaction(sys.processes[p].phase) ==> sys'.db.mapping == sys.db.mapping)
            && (sys'.events == sys.events ==> sys'.db.mapping == sys.db.mapping)
            && (sys'.events != sys.events ==>
                  exists e :: sys'.events == sys.events + [e] && e.subject == s
                       && e.user == Resolve(if e.DataDeleted? then sys.db else sys'.db, s)
                       && (!Boundary(e, s) ==> Resolve(sys'.db, s) == Resolve(sys.db, s)))
  {
    hide EventsMatch, LocksMatch, Advanced, PhaseFits, Next;
    var sys', s := Advanced(sys, p), sys.processes[p].subject;
    AdvanceHasEffect(sys, p);
    NextIsAdvanced(sys, p);
    assert ReadsStayTrue(sys.db, sys.processes[p]);
    if sys'.events != sys.events {
      var e := sys'.events[|sys.events|];
      assert sys'.events == sys.events + [e];
      assert Takes(e, e.user) ==> e.user !in sys.db.mapping.Values;
      if e.Merged? {
        assert Takes(e, Guest(e.guest));
        NobodysDeletionIsLocal(sys.db, Guest(e.guest));
      }
      forall t | t != s
        ensures Resolve(sys'.db, t) == Resolve(sys.db, t) && (t in sys'.db.mapping <==> t in sys.db.mapping)
      {
        DeleteUserIsLocal(sys.db, s, t);
      }
    }
  }

  lemma NobodysDeletionIsLocal(db: Db, u: UserId)
    requires u !in db.mapping.Values
    ensures DeleteUser(db, u).mapping == db.mapping
  {
  }

  lemma AdvanceKeeps(sys: System, p: nat)
    requires Inv(sys) && p in sys.processes && GuardHolds(sys, Advance(p))
    ensures Inv(Advanced(sys, p))
  {
    hide EventsMatch, Next, Advanced, Exclusive, OwnIdsStayOwn, Resolve, LocksMatch, GuardHolds, PhaseFits;
    var sys' := Advanced(sys, p);
    AdvanceIsLocal(sys, p);
    AdvancedReads(sys, p);
    AdvanceIsAStep(sys, p);
    NextIsAdvanced(sys, p);
    NextKeepsSafe(sys, Advance(p));
    if sys'.events == sys.events {
      EventsUnchanged(sys.db, sys'.db, sys.events);
    } else {
      var e :| sys'.events == sys.events + [e] && e.subject == sys.processes[p].subject
               && e.user == Resolve(if e.DataDeleted? then sys.db else sys'.db, e.subject)
               && (!Boundary(e, e.subject) ==> Resolve(sys'.db, e.subject) == Resolve(sys.db, e.subject));
      EventAppends(sys.db, sys'.db, sys.events, e);
    }
    if InTransaction(sys.processes[p].phase) {
      OnlyOneHolds(sys, p);
    }
    forall q | q in sys'.processes ensures ReadsStayTrue(sys'.db, sys'.processes[q]) {
      assert ReadsStayTrue(sys.db, sys.processes[q]);
      ReadsDependOnTheSubject(sys.db, sys'.db, sys.processes[q]);
    }
  }

  lemma ReadsDependOnTheSubject(db: Db, db': Db, process: Process)
    requires ReadsStayTrue(db, process)
    ensures var s := process.subject;
            (Resolve(db', s) == Resolve(db, s) && (s in db'.mapping <==> s in db.mapping)) ==> ReadsStayTrue(db', process)
    ensures (db'.mapping == db.mapping || !InTransaction(process.phase)) ==> ReadsStayTrue(db', process)
  {
  }

  lemma OtherActionsKeep(sys: System, a: Action)
    requires Inv(sys) && !(a.Advance? && a.p in sys.processes)
    ensures Inv(Next(sys, a))
  {
    var sys' := Next(sys, a);
    NextKeepsSafe(sys, a);
    OtherActionsHaveNoEffect(sys, a);
    forall p | p in sys'.processes ensures ReadsStayTrue(sys'.db, sys'.processes[p]) {
      OtherActionsKeepReads(sys, a, p);
    }
    hide Safe, EventsMatch, Next;
    if a.Authenticate? {
      EventAppends(sys.db, sys'.db, sys.events, Authenticated(a.subject, Resolve(sys.db, a.subject)));
    } else {
      EventsUnchanged(sys.db, sys'.db, sys.events);
    }
  }

  lemma OtherActionsKeepReads(sys: System, a: Action, p: nat)
    requires Inv(sys) && !(a.Advance? && a.p in sys.processes) && p in Next(sys, a).processes
    ensures ReadsStayTrue(Next(sys, a).db, Next(sys, a).processes[p])
  {
    hide Safe, EventsMatch, Exclusive, OwnIdsStayOwn;
    OtherActionsHaveNoEffect(sys, a);
    OtherActionsOnlyStop(sys, a, p);
    hide Next;
    if p in sys.processes && Next(sys, a).processes[p] == sys.processes[p] {
      ReadsDependOnTheSubject(sys.db, Next(sys, a).db, sys.processes[p]);
    }
  }

  lemma OtherActionsOnlyStop(sys: System, a: Action, p: nat)
    requires !(a.Advance? && a.p in sys.processes) && p in Next(sys, a).processes
    ensures var process := Next(sys, a).processes[p];
            (p in sys.processes && process == sys.processes[p]) || process.phase.Failed? || process.phase.Waiting?
  {
  }

  lemma NextKeeps(sys: System, a: Action)
    requires Inv(sys) && GuardHolds(sys, a)
    ensures Inv(Next(sys, a))
  {
    hide Inv, Advanced, GuardHolds;
    if a.Advance? && a.p in sys.processes {
      NextIsAdvanced(sys, a.p);
      AdvanceKeeps(sys, a.p);
    } else {
      OtherActionsKeep(sys, a);
    }
  }

  /** A start from which a run can be judged: nothing runs and nothing has happened. */
  ghost predicate Fresh(sys: System) {
    Quiet(sys) && sys.events == [] && OwnIdsStayOwn(sys.db)
  }

  /** Every upgrade of the run takes a guest that is nobody's account. */
  ghost predicate Guarded(sys: System, actions: seq<Action>) {
    forall n: nat | n < |actions| :: GuardHolds(Run(sys, actions[..n]), actions[n])
  }

  lemma {:induction false} RunKeeps(sys: System, actions: seq<Action>)
    requires Inv(sys) && Guarded(sys, actions)
    ensures Inv(Run(sys, actions))
  {
    hide Inv, Next, GuardHolds;
    if actions != [] {
      var n := |actions| - 1;
      var shorter := actions[..n];
      assert forall m: nat | m < n :: shorter[..m] == actions[..m] && shorter[m] == actions[m];
      RunKeeps(sys, shorter);
      NextKeeps(Run(sys, shorter), actions[n]);
    }
  }

  lemma FreshHolds(sys: System)
    requires Fresh(sys) && Exclusive(sys.db)
    ensures Inv(sys)
  {
    QuietIsSafe(sys);
  }

  /** Provisioning, deletion, upgrades and request authentication agree in every run from a state where no two subjects
      share an account, if all its upgrades are guarded: within one life of a subject's account, all events name one
      and the same user id, and no two subjects ever share an account. */
  lemma OneUserBetweenDeletions(sys: System, actions: seq<Action>, i: nat, j: nat)
    requires Fresh(sys) && Exclusive(sys.db) && Guarded(sys, actions)
    requires SameLife(Run(sys, actions).events, i, j)
    ensures Run(sys, actions).events[i].user == Run(sys, actions).events[j].user
    ensures Exclusive(Run(sys, actions).db)
  {
    FreshHolds(sys);
    RunKeeps(sys, actions);
  }

  lemma GuardedRunAgrees(sys: System, actions: seq<Action>)
    requires Fresh(sys) && Exclusive(sys.db) && Guarded(sys, actions)
    ensures Agreed(Run(sys, actions).events)
  {
    FreshHolds(sys);
    RunKeeps(sys, actions);
  }

  /** Under the guard only a boundary event of a subject changes whom it resolves to. */
  lemma ResolutionChangesAtBoundaries(sys: System, a: Action, s: nat)
    requires Inv(sys) && GuardHolds(sys, a) && Resolve(Next(sys, a).db, s) != Resolve(sys.db, s)
    ensures exists e :: Next(sys, a).events == sys.events + [e] && Boundary(e, s)
  {
    hide Inv, Advanced, GuardHolds;
    if a.Advance? && a.p in sys.processes {
      NextIsAdvanced(sys, a.p);
      AdvanceIsLocal(sys, a.p);
    } else {
      OtherActionsHaveNoEffect(sys, a);
    }
  }

  /** The guard is exactly what is needed: the first upgrade of a run that breaches it, binding or merging, can be made
      to break agreement, by authenticating the guest's present owner around it and, after a binding, deleting the
      newcomer. */
  lemma FirstBreachBreaksAgreement(sys: System, actions: seq<Action>, a: Action) returns (before: seq<Action>, after: seq<Action>)
    requires Fresh(sys) && Exclusive(sys.db) && Guarded(sys, actions) && !GuardHolds(Run(sys, actions), a)
    ensures !Agreed(Run(sys, actions + before + [a] + after).events)
  {
    FreshHolds(sys);
    RunKeeps(sys, actions);
    before, after := BreachBreaksAgreement(Run(sys, actions), a);
    RunInTwo(sys, actions, before + [a] + after);
    assert actions + before + [a] + after == actions + (before + [a] + after);
  }

  lemma BreachBreaksAgreement(sys: System, a: Action) returns (before: seq<Action>, after: seq<Action>)
    requires Inv(sys) && !GuardHolds(sys, a)
    ensures !Agreed(Run(sys, before + [a] + after).events)
  {
    hide EventsMatch, LocksMatch, Advanced, PhaseFits, Next, Run, Agreed;
    var e, u :| Next(sys, a).events == sys.events + [e] && Takes(e, u) && u in sys.db.mapping.Values;
    var s :| s in sys.db.mapping && sys.db.mapping[s] == u;
    if !(a.Advance? && a.p in sys.processes) {
      OtherGuardHolds(sys, a);
      assert false;
    }
    var p := a.p;
    var t := sys.processes[p].subject;
    NextIsAdvanced(sys, p);
    AdvanceHasEffect(sys, p);
    LastEventOf(sys.events, e);
    assert ReadsStayTrue(sys.db, sys.processes[p]);
    assert t != s;
    var events := sys.events + [Authenticated(s, u)];
    var seen := sys.(events := events);
    before := [Authenticate(s)];
    AuthenticateOnly(sys, s);
    NextIsAdvanced(seen, p);
    EventsDoNotMatter(sys, p, events, e);
    var taken := Next(seen, a);
    RunOne(sys, Authenticate(s));
    RunAppend(sys, before, a);
    if e.Merged? {
      after := [Authenticate(s)];
      RunAppend(sys, before + [a], Authenticate(s));
      AuthenticateOnly(taken, s);
      BreakByMerge(sys.events, s, u, e);
    } else {
      var q := FreshNat(taken.processes.Keys);
      TakenLeavesRoom(sys, p);
      var deletion := Deletion(t, q);
      var gone := Deleted(taken, t, q);
      after := deletion + [Authenticate(s)];
      RunInTwo(sys, before + [a], deletion);
      RunAppend(sys, before + [a] + deletion, Authenticate(s));
      AuthenticateOnly(gone, s);
      BreakByBinding(sys.events, s, t, u, e);
      assert before + [a] + deletion + [Authenticate(s)] == before + [a] + after;
    }
  }

  lemma LastEvent(events: seq<Event>, e: Event, e': Event)
    requires events + [e] == events + [e'] || events + [e] == events
    ensures events + [e] == events + [e'] && e == e'
  {
    assert |events + [e]| != |events|;
    assert (events + [e])[|events|] == e;
  }

  lemma LastEventOf(events: seq<Event>, e: Event)
    ensures events + [e] != events
    ensures forall e' | events + [e] == events + [e'] :: e == e'
  {
    forall e' | events + [e] == events + [e'] ensures e == e' {
      LastEvent(events, e, e');
    }
    assert |events + [e]| != |events|;
  }

  lemma AuthenticateOnly(sys: System, s: nat)
    ensures Next(sys, Authenticate(s)) == sys.(events := sys.events + [Authenticated(s, Resolve(sys.db, s))])
  {
  }

  /** A process that has just bound a guest has left its transaction, its lock and no tombstone. */
  lemma TakenLeavesRoom(sys: System, p: nat)
    requires Safe(sys) && p in sys.processes && Advanced(sys, p).events != sys.events && sys.processes[p].phase.Bound?
    ensures sys.processes[p].subject !in Advanced(sys, p).locks && sys.processes[p].subject !in Advanced(sys, p).db.tombstones
  {
    assert PhaseFits(sys.db, sys.processes[p]);
  }

  lemma BreakByMerge(events: seq<Event>, s: nat, u: UserId, e: Event)
    requires u != Own(s) && e.subject != s
    ensures !Agreed(events + [Authenticated(s, u)] + [e] + [Authenticated(s, Own(s))])
  {
    var all, n := events + [Authenticated(s, u)] + [e] + [Authenticated(s, Own(s))], |events|;
    assert all[n] == Authenticated(s, u) && all[n + 1] == e && all[n + 2] == Authenticated(s, Own(s));
    assert SameLife(all, n, n + 2);
  }

  lemma BreakByBinding(events: seq<Event>, s: nat, t: nat, u: UserId, e: Event)
    requires u != Own(s) && e.subject != s && s != t
    ensures !Agreed(events + [Authenticated(s, u)] + [e] + [DataDeleted(t, u, true)] + [Authenticated(s, Own(s))])
  {
    var all := events + [Authenticated(s, u)] + [e] + [DataDeleted(t, u, true)] + [Authenticated(s, Own(s))];
    var n := |events|;
    assert all[n] == Authenticated(s, u) && all[n + 1] == e && all[n + 2] == DataDeleted(t, u, true);
    assert all[n + 3] == Authenticated(s, Own(s));
    assert SameLife(all, n, n + 3);
  }

  predicate NoUpgrades(actions: seq<Action>) {
    forall k | 0 <= k < |actions| :: actions[k].Start? ==> !actions[k].kind.Upgrade? && !actions[k].kind.Merge?
  }

  ghost predicate NoneUpgrades(sys: System) {
    forall p | p in sys.processes :: !sys.processes[p].kind.Upgrade? && !sys.processes[p].kind.Merge?
  }

  lemma NextKeepsNoneUpgrades(sys: System, a: Action)
    requires NoneUpgrades(sys) && (a.Start? ==> !a.kind.Upgrade? && !a.kind.Merge?)
    ensures NoneUpgrades(Next(sys, a)) && GuardHolds(sys, a)
  {
    hide Advanced;
    if a.Advance? && a.p in sys.processes {
      NextIsAdvanced(sys, a.p);
      AdvanceIsAStep(sys, a.p);
      AdvanceHasEffect(sys, a.p);
      forall e | Next(sys, a).events == sys.events + [e] ensures !e.Linked? && !e.Merged? {
        LastEventOf(sys.events, e);
      }
    } else {
      OtherGuardHolds(sys, a);
    }
  }

  lemma OtherGuardHolds(sys: System, a: Action)
    requires !(a.Advance? && a.p in sys.processes)
    ensures GuardHolds(sys, a)
  {
    hide Next;
    OtherActionsHaveNoEffect(sys, a);
    forall e | Next(sys, a).events == sys.events + [e] ensures !e.Linked? && !e.Merged? {
      LastEventOf(sys.events, e);
    }
  }

  lemma {:induction false} NoUpgradesAreGuarded(sys: System, actions: seq<Action>, n: nat)
    requires NoneUpgrades(sys) && NoUpgrades(actions) && n <= |actions|
    ensures NoneUpgrades(Run(sys, actions[..n])) && (n < |actions| ==> GuardHolds(Run(sys, actions[..n]), actions[n]))
  {
    hide Next, NoneUpgrades, GuardHolds;
    if n > 0 {
      NoUpgradesAreGuarded(sys, actions, n - 1);
      NextKeepsNoneUpgrades(Run(sys, actions[..n - 1]), actions[n - 1]);
      assert actions[..n] == actions[..n - 1] + [actions[n - 1]];
      RunAppend(sys, actions[..n - 1], actions[n - 1]);
    }
    if n < |actions| {
      NextKeepsNoneUpgrades(Run(sys, actions[..n]), actions[n]);
    }
  }

  /** Without sessions no upgrade can take a guest. */
  lemma NextKeepsNoSessions(sys: System, a: Action)
    requires sys.db.sessions == {}
    ensures Next(sys, a).db.sessions == {} && GuardHolds(sys, a)
  {
    hide Advanced;
    if a.Advance? && a.p in sys.processes {
      NextIsAdvanced(sys, a.p);
      AdvanceHasEffect(sys, a.p);
      forall e | Next(sys, a).events == sys.events + [e] ensures !e.Linked? && !e.Merged? {
        LastEventOf(sys.events, e);
      }
    } else {
      OtherGuardHolds(sys, a);
      OtherActionsHaveNoEffect(sys, a);
    }
  }

  lemma {:induction false} NoSessionsAreGuarded(sys: System, actions: seq<Action>, n: nat)
    requires sys.db.sessions == {} && n <= |actions|
    ensures Run(sys, actions[..n]).db.sessions == {} && (n < |actions| ==> GuardHolds(Run(sys, actions[..n]), actions[n]))
  {
    hide Next, GuardHolds;
    if n > 0 {
      NoSessionsAreGuarded(sys, actions, n - 1);
      NextKeepsNoSessions(Run(sys, actions[..n - 1]), actions[n - 1]);
      assert actions[..n] == actions[..n - 1] + [actions[n - 1]];
      RunAppend(sys, actions[..n - 1], actions[n - 1]);
    }
    if n < |actions| {
      NextKeepsNoSessions(Run(sys, actions[..n]), actions[n]);
    }
  }

  /** Tombstoned subjects have no mapping. */
  ghost predicate TombstonedAreUnmapped(db: Db) {
    forall s | s in db.tombstones :: s !in db.mapping
  }

  /** Whoever shares with whom: what a transaction has read, the subject's mapping still is, if there still is one. */
  ghost predicate ReadsFit(db: Db, process: Process) {
    var s := process.subject;
    match process.phase
    case Loaded(user, _) => s in db.mapping ==> db.mapping[s] == user
    case Profiled(user, _) => s in db.mapping ==> db.mapping[s] == user
    case Erased(user) => s in db.mapping ==> db.mapping[s] == user
    case Marked(user) => s in db.mapping ==> db.mapping[s] == user
    case _ => true
  }

  ghost predicate Unmapping(sys: System) {
    && Safe(sys) && TombstonedAreUnmapped(sys.db)
    && forall p | p in sys.processes :: ReadsFit(sys.db, sys.processes[p])
  }

  lemma AdvancedReadsFit(sys: System, p: nat)
    requires p in sys.processes && ReadsFit(sys.db, sys.processes[p])
    ensures ReadsFit(Advanced(sys, p).db, Advanced(sys, p).processes[p])
  {
    hide Advanced;
    var process, sys' := sys.processes[p], Advanced(sys, p);
    AdvanceIsAStep(sys, p);
    if !InTransaction(sys'.processes[p].phase) {
      NothingRead(sys'.db, sys'.processes[p]);
    } else if !InTransaction(process.phase) {
      BeginsLocked(sys, p);
    } else {
      NoCommitNoChange(sys, p);
    }
  }

  lemma AdvanceUnmaps(sys: System, p: nat)
    requires Unmapping(sys) && p in sys.processes
    ensures TombstonedAreUnmapped(Advanced(sys, p).db)
    ensures forall t | t != sys.processes[p].subject && t in Advanced(sys, p).db.mapping ::
              t in sys.db.mapping && Advanced(sys, p).db.mapping[t] == sys.db.mapping[t]
    ensures !InTransaction(sys.processes[p].phase) ==> Advanced(sys, p).db.mapping == sys.db.mapping
  {
    hide LocksMatch, Advanced, Next;
    AdvanceHasEffect(sys, p);
    NextIsAdvanced(sys, p);
    StepIsSafe(sys, Advance(p));
    assert ReadsFit(sys.db, sys.processes[p]) && PhaseFits(sys.db, sys.processes[p]);
  }

  lemma NextUnmaps(sys: System, a: Action)
    requires Unmapping(sys)
    ensures Unmapping(Next(sys, a))
  {
    NextKeepsSafe(sys, a);
    StepIsSafe(sys, a);
    if a.Advance? && a.p in sys.processes {
      hide Next, Advanced, LocksMatch, TombstonedAreUnmapped;
      var p := a.p;
      NextIsAdvanced(sys, p);
      AdvanceUnmaps(sys, p);
      AdvancedReadsFit(sys, p);
      AdvanceIsAStep(sys, p);
      var sys' := Advanced(sys, p);
      if InTransaction(sys.processes[p].phase) {
        OnlyOneHolds(sys, p);
      }
      forall q | q in sys'.processes ensures ReadsFit(sys'.db, sys'.processes[q]) {
        assert ReadsFit(sys.db, sys.processes[q]);
      }
    } else {
      hide Safe;
      OtherActionsHaveNoEffect(sys, a);
    }
  }

  /** In every run a tombstoned subject has no mapping, whoever shares an account with whom. */
  lemma {:induction false} TombstonedStayUnmapped(sys: System, actions: seq<Action>)
    requires Quiet(sys) && TombstonedAreUnmapped(sys.db)
    ensures Unmapping(Run(sys, actions))
    decreases |actions|
  {
    if actions == [] {
      QuietIsSafe(sys);
    } else {
      hide Next, Unmapping;
      TombstonedStayUnmapped(sys, actions[..|actions| - 1]);
      NextUnmaps(Run(sys, actions[..|actions| - 1]), actions[|actions| - 1]);
    }
  }

  /** The exact condition where no guest is upgraded: every run from a fresh state agrees if and only if no two
      subjects share an account there. */
  lemma AgreementWithoutUpgrades(sys: System)
    requires Fresh(sys) && TombstonedAreUnmapped(sys.db)
    ensures (forall actions | NoUpgrades(actions) :: Agreed(Run(sys, actions).events)) <==> Exclusive(sys.db)
  {
    hide Run, Agreed, GuardHolds;
    if Exclusive(sys.db) {
      forall actions | NoUpgrades(actions) ensures Agreed(Run(sys, actions).events) {
        forall n: nat | n < |actions| ensures GuardHolds(Run(sys, actions[..n]), actions[n]) {
          NoUpgradesAreGuarded(sys, actions, n);
        }
        GuardedRunAgrees(sys, actions);
      }
    } else {
      var s, t :| s in sys.db.mapping && t in sys.db.mapping && s != t && sys.db.mapping[s] == sys.db.mapping[t];
      var actions := SharedAccountBreaksAgreement(sys, s, t, 0, 1);
    }
  }

  /** The foreign key from guest sessions to profiles. */
  ghost predicate SessionsHaveProfiles(db: Db) {
    forall g | g in db.sessions :: Guest(g) in db.profiles
  }

  /** The exact condition with upgrades: an upgrade does not ask whether the guest it takes is already someone's, so
      every run from a fresh state agrees if and only if nobody shares an account there and no guest session is live. */
  lemma AgreementWithUpgrades(sys: System)
    requires Fresh(sys) && TombstonedAreUnmapped(sys.db) && SessionsHaveProfiles(sys.db)
    ensures (forall actions :: Agreed(Run(sys, actions).events)) <==> Exclusive(sys.db) && sys.db.sessions == {}
  {
    hide Run, Agreed, GuardHolds;
    if !Exclusive(sys.db) {
      var s, t :| s in sys.db.mapping && t in sys.db.mapping && s != t && sys.db.mapping[s] == sys.db.mapping[t];
      var actions := SharedAccountBreaksAgreement(sys, s, t, 0, 1);
    } else if sys.db.sessions != {} {
      var g :| g in sys.db.sessions;
      var actions := TwoUpgradesBreakAgreement(sys, g);
    } else {
      forall actions ensures Agreed(Run(sys, actions).events) {
        forall n: nat | n < |actions| ensures GuardHolds(Run(sys, actions[..n]), actions[n]) {
          NoSessionsAreGuarded(sys, actions, n);
        }
        GuardedRunAgrees(sys, actions);
      }
    }
  }

  /** Two new subjects upgrade with one guest account, and then share it. */
  lemma TwoUpgradesBreakAgreement(sys: System, g: nat) returns (actions: seq<Action>)
    requires Fresh(sys) && Guest(g) in sys.db.profiles && g in sys.db.sessions
    ensures !Agreed(Run(sys, actions).events)
  {
    var own := set u | u in sys.db.profiles && u.Own? :: u.subject;
    var s := FreshNat(sys.db.mapping.Keys + sys.db.tombstones + own);
    var t := FreshNat(sys.db.mapping.Keys + sys.db.tombstones + own + {s});
    assert Own(s) in sys.db.profiles ==> s in own;
    assert Own(t) in sys.db.profiles ==> t in own;
    var first, second := Upgrading(s, 0, g), Upgrading(t, 1, g);
    var one := Upgraded(sys, s, 0, g);
    var two := Upgraded(one, t, 1, g);
    var rest := SharedAccountBreaksAgreement(two, s, t, 2, 3);
    actions := first + second + rest;
    RunInTwo(sys, first, second);
    RunInTwo(sys, first + second, rest);
  }

  /** A merge alone breaks agreement, although nobody shares an account before or after: s has taken over guest g, whose
      session stays live; t, with another account, completes an upgrade with that session. The guest is deleted, the
      cascade drops the mapping of s, and s, neither deleted nor tombstoned, is authenticated as somebody else. */
  lemma MergeBreaksAgreement(sys: System, s: nat, t: nat, g: nat, p: nat) returns (actions: seq<Action>)
    requires s != t && s in sys.db.mapping && sys.db.mapping[s] == Guest(g) && t in sys.db.mapping
    requires sys.db.mapping[t] != Guest(g) && sys.db.mapping[t] in sys.db.profiles
    requires Guest(g) in sys.db.profiles && g in sys.db.sessions
    requires p !in sys.processes && t !in sys.locks && t !in sys.db.tombstones
    ensures Run(sys, actions).events ==
            sys.events + [Authenticated(s, Guest(g))] + [Merged(t, sys.db.mapping[t], g)] + [Authenticated(s, Own(s))]
    ensures !Agreed(Run(sys, actions).events)
    ensures Exclusive(sys.db) ==> Exclusive(Run(sys, actions).db)
  {
    var first, merge := [Authenticate(s)], MergingAway(t, p, g);
    actions := first + merge + [Authenticate(s)];
    RunOne(sys, Authenticate(s));
    AuthenticateOnly(sys, s);
    var seen := Next(sys, Authenticate(s));
    var merged := MergedAway(seen, t, p, g);
    RunInTwo(sys, first, merge);
    RunAppend(sys, first + merge, Authenticate(s));
    AuthenticateOnly(merged, s);
    hide Run, Next, Agreed;
    BreakByMerge(sys.events, s, Guest(g), Merged(t, sys.db.mapping[t], g));
  }

  /** Sharing breaks agreement, whoever shares: s's provisioning has read its mapping when t is deleted; the cascade
      drops s's mapping without taking s's lock. The provisioning of s commits for the shared account, and s is at once
      authenticated as itself. */
  lemma SharedAccountBreaksAgreement(sys: System, s: nat, t: nat, p: nat, q: nat) returns (actions: seq<Action>)
    requires OwnIdsStayOwn(sys.db) && s != t && s in sys.db.mapping && t in sys.db.mapping
    requires sys.db.mapping[s] == sys.db.mapping[t] && s !in sys.db.tombstones && t !in sys.db.tombstones
    requires p != q && p !in sys.processes && q !in sys.processes && s !in sys.locks && t !in sys.locks
    ensures NoUpgrades(actions)
    ensures var u := sys.db.mapping[s];
            Run(sys, actions).events ==
            sys.events + [DataDeleted(t, u, true), Provisioned(s, u), Authenticated(s, Own(s))]
    ensures !Agreed(Run(sys, actions).events)
  {
    var first := [Start(p, s, Provision, true)] + Repeat(Advance(p), 3);
    var deletion := Deletion(t, q);
    actions := first + deletion + [Advance(p)] + [Advance(p)] + [Authenticate(s)];
    var u := sys.db.mapping[s];
    var reading := Ready(sys, s, p);
    ReadingLeavesRoom(sys, s, p, t, q);
    var deleted := Deleted(reading, t, q);
    StaleCommit(deleted, s, p, u);
    RunInTwo(sys, first, deletion);
    RunAppend(sys, first + deletion, Advance(p));
    RunAppend(sys, first + deletion + [Advance(p)], Advance(p));
    RunAppend(sys, first + deletion + [Advance(p)] + [Advance(p)], Authenticate(s));
    hide Run, Next, Agreed, NoUpgrades;
    NoUpgradeIn(actions, p, s, q, t);
    ThreeEvents(sys.events, s, t, u);
    assert (sys.events + [DataDeleted(t, u, true)]) + [Provisioned(s, u), Authenticated(s, Own(s))]
        == sys.events + [DataDeleted(t, u, true), Provisioned(s, u), Authenticated(s, Own(s))];
  }

  lemma NoUpgradeIn(actions: seq<Action>, p: nat, s: nat, q: nat, t: nat)
    requires actions == [Start(p, s, Provision, true)] + Repeat(Advance(p), 3)
                        + ([Start(q, t, Delete(false), true)] + Repeat(Advance(q), 6)) + [Advance(p)] + [Advance(p)] + [Authenticate(s)]
    ensures NoUpgrades(actions)
  {
  }

  /** While s is being provisioned under p, the subject t and the process number q are still free. */
  lemma ReadingLeavesRoom(sys: System, s: nat, p: nat, t: nat, q: nat)
    requires s != t && p != q && q !in sys.processes && t !in sys.locks && s in sys.db.mapping
    ensures var reading := Underway(sys, Process(s, Provision, true, Loaded(sys.db.mapping[s], true)), p);
            && q !in reading.processes && t !in reading.locks && reading.db == sys.db && reading.events == sys.events
            && p in reading.processes
            && reading.processes[p] == Process(s, Provision, true, Loaded(sys.db.mapping[s], true))
  {
  }

  /** A provisioning commits for the user it read, although the mapping has gone meanwhile. */
  lemma StaleCommit(sys: System, s: nat, p: nat, u: UserId)
    requires p in sys.processes && sys.processes[p] == Process(s, Provision, true, Loaded(u, true)) && s !in sys.db.mapping
    ensures Next(Next(Next(sys, Advance(p)), Advance(p)), Authenticate(s)).events ==
            sys.events + [Provisioned(s, u), Authenticated(s, Own(s))]
  {
    var profiled := Next(sys, Advance(p));
    assert profiled.processes[p] == Process(s, Provision, true, Profiled(u, true));
    assert Next(profiled, Advance(p)).events == sys.events + [Provisioned(s, u)];
  }

  lemma ThreeEvents(events: seq<Event>, s: nat, t: nat, u: UserId)
    requires u != Own(s)
    ensures !Agreed(events + [DataDeleted(t, u, true), Provisioned(s, u), Authenticated(s, Own(s))])
  {
    var all, n := events + [DataDeleted(t, u, true), Provisioned(s, u), Authenticated(s, Own(s))], |events|;
    assert all[n + 1] == Provisioned(s, u) && all[n + 2] == Authenticated(s, Own(s));
    assert SameLife(all, n + 1, n + 2);
  }
}
