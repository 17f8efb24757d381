/** The Cognito identity lifecycle as a state machine: provisioning and deletion, and the two transactions of a guest
    upgrade, one that binds a guest account and one that merges it away, taken apart into their database steps and interleaved freely, with request authentication reading at any moment. A
    transaction's writes become visible when it commits; the subject lock is held from its first step to its end.
    The safety results here hold from every state in which nothing runs, whoever shares an account with whom. */
module IdentityProtocol {

  /** An application user id: the Cognito subject itself, or the id of a guest whose account a subject took over. */
  datatype UserId = Own(subject: nat) | Guest(id: nat)

  /** Committed database state and the external user pool. Tombstones are kept by subject; the digest is injective.
      `sessions` are the guests with a live session on a platform that may upgrade. */
  datatype Db = Db(
    tombstones: set<nat>,
    mapping: map<nat, UserId>,
    profiles: set<UserId>,
    sessions: set<nat>,
    cognito: set<nat>)

  datatype Kind = Provision | Delete(demo: bool) | Upgrade(guest: nat) | Merge(guest: nat)

  datatype Phase =
    | Waiting
    | Locked
    | Checked
    | Loaded(user: UserId, mapped: bool)
    | Profiled(user: UserId, mapped: bool)
    | Bound(user: UserId)
    | Erased(user: UserId)
    | Marked(user: UserId)
    | Merging(user: UserId)
    | Skipping
    | CognitoPending
    | Returned
    | Failed

  /** One request being served. */
  datatype Process = Process(subject: nat, kind: Kind, hasUsername: bool, phase: Phase)

  /** What has happened, in order. */
  datatype Event =
    | Provisioned(subject: nat, user: UserId)
    | Authenticated(subject: nat, user: UserId)
    | DataDeleted(subject: nat, user: UserId, genuine: bool)
    | Linked(subject: nat, user: UserId)
    | Merged(subject: nat, user: UserId, guest: nat)

  datatype System = System(db: Db, processes: map<nat, Process>, locks: map<nat, nat>, events: seq<Event>)

  datatype Action =
    | Start(p: nat, subject: nat, kind: Kind, hasUsername: bool)
    | Advance(p: nat)
    | Fail(p: nat)
    | LoseReply(p: nat)
    | DropGuest(guest: nat)
    | Authenticate(subject: nat)

  /** mapping?.userId ?? subject */
  function Resolve(db: Db, subject: nat): UserId {
    if subject in db.mapping then db.mapping[subject] else Own(subject)
  }

  predicate InTransaction(phase: Phase) {
    !(phase.Waiting? || phase.CognitoPending? || phase.Returned? || phase.Failed?)
  }

  function Move(sys: System, p: nat, phase: Phase): System
    requires p in sys.processes
  {
    sys.(processes := sys.processes[p := sys.processes[p].(phase := phase)])
  }

  /** The transaction ends, by commit or rollback, and its lock goes. */
  function Finish(sys: System, p: nat, phase: Phase): System
    requires p in sys.processes
  {
    Move(sys, p, phase).(locks := sys.locks - {sys.processes[p].subject})
  }

  /** Deleting the profile cascades to every identity mapped to it and to its guest sessions. */
  function DeleteUser(db: Db, user: UserId): Db {
    db.(profiles := db.profiles - {user},
        sessions := (set g | g in db.sessions && Guest(g) != user),
        mapping := map s | s in db.mapping && db.mapping[s] != user :: db.mapping[s])
  }

  function CommitDelete(sys: System, p: nat, user: UserId, demo: bool): System
    requires p in sys.processes
  {
    var s := sys.processes[p].subject;
    var db := DeleteUser(sys.db, user);
    Finish(sys, p, if demo then Returned else CognitoPending).(
      db := if demo then db else db.(tombstones := db.tombstones + {s}),
      events := sys.events + [DataDeleted(s, user, !demo)])
  }

  function CommitProvision(sys: System, p: nat, user: UserId, bind: bool): System
    requires p in sys.processes
  {
    var s := sys.processes[p].subject;
    Finish(sys, p, Returned).(
      db := sys.db.(profiles := sys.db.profiles + {user},
                    mapping := if bind && s !in sys.db.mapping then sys.db.mapping[s := Own(s)] else sys.db.mapping),
      events := sys.events + [Provisioned(s, user)])
  }

  /** The binding half of a guest upgrade, for an unmapped subject: it needs a live session of the guest; the inserted
      mapping is immutable and needs its profile to exist. The session stays live. */
  function CommitLink(sys: System, p: nat, user: UserId, guest: nat): System
    requires p in sys.processes
  {
    var s := sys.processes[p].subject;
    if guest !in sys.db.sessions || user !in sys.db.profiles || (s in sys.db.mapping && sys.db.mapping[s] != user)
    then Finish(sys, p, Failed)
    else
      Finish(sys, p, Returned).(
        db := sys.db.(mapping := sys.db.mapping[s := user]),
        events := sys.events + [Linked(s, user)])
  }

  /** The merging half, for a mapped subject: the guest's content moves to the subject's user and the guest is deleted. */
  function CommitMerge(sys: System, p: nat, user: UserId, guest: nat): System
    requires p in sys.processes
  {
    var s := sys.processes[p].subject;
    if guest !in sys.db.sessions || Guest(guest) !in sys.db.profiles || user !in sys.db.profiles
    then Finish(sys, p, Failed)
    else
      Finish(sys, p, Returned).(
        db := DeleteUser(sys.db, Guest(guest)),
        events := sys.events + [Merged(s, user, guest)])
  }

  /** The next database step of process p. */
  function Advanced(sys: System, p: nat): System
    requires p in sys.processes
  {
    var process := sys.processes[p];
    var s := process.subject;
    match process.phase
    case Waiting => if s in sys.locks then sys else Move(sys, p, Locked).(locks := sys.locks[s := p])
    case Locked =>
      if s !in sys.db.tombstones then Move(sys, p, Checked)
      else if process.kind.Delete? then Move(sys, p, Skipping)
      else Finish(sys, p, Failed)
    case Skipping => Finish(sys, p, if process.kind == Delete(true) then Returned else CognitoPending)
    case Checked => Move(sys, p, Loaded(Resolve(sys.db, s), s in sys.db.mapping))
    case Loaded(user, mapped) =>
      (match process.kind
       case Provision => Move(sys, p, Profiled(user, mapped))
       case Delete(_) => Move(sys, p, Erased(user))
       case Upgrade(g) =>
         if mapped then Finish(sys, p, Returned)
         else Move(sys, p, Bound(if Own(s) in sys.db.profiles then Own(s) else Guest(g)))
       case Merge(g) =>
         if !mapped then Finish(sys, p, Failed)
         else if user == Guest(g) then Finish(sys, p, Returned)
         else Move(sys, p, Merging(user)))
    case Profiled(user, mapped) =>
      if mapped then CommitProvision(sys, p, user, false)
      else if s in sys.db.mapping && sys.db.mapping[s] != Own(s) then Finish(sys, p, Failed)
      else Move(sys, p, Bound(user))
    case Bound(user) =>
      if process.kind.Upgrade? then CommitLink(sys, p, user, process.kind.guest) else CommitProvision(sys, p, user, true)
    case Erased(user) =>
      if process.kind == Delete(true) then CommitDelete(sys, p, user, true) else Move(sys, p, Marked(user))
    case Marked(user) => CommitDelete(sys, p, user, false)
    case Merging(user) =>
      if process.kind.Merge? then CommitMerge(sys, p, user, process.kind.guest) else Finish(sys, p, Failed)
    case CognitoPending =>
      if !process.hasUsername then Move(sys, p, Failed)
      else Move(sys, p, Returned).(db := sys.db.(cognito := sys.db.cognito - {s}))
    case Returned => sys
    case Failed => sys
  }

  /** One action of the whole system; an action that is not possible changes nothing. A lost reply is a Cognito
      deletion that took effect although the call failed. A guest is dropped at its own request only while no
      identity is mapped to it. */
  function Next(sys: System, a: Action): System {
    match a
    case Start(p, s, kind, hasUsername) =>
      if p in sys.processes then sys
      else sys.(processes := sys.processes[p := Process(s, kind, hasUsername, Waiting)])
    case Advance(p) => if p in sys.processes then Advanced(sys, p) else sys
    case Fail(p) =>
      if p !in sys.processes then sys
      else if InTransaction(sys.processes[p].phase) then Finish(sys, p, Failed)
      else if sys.processes[p].phase.CognitoPending? then Move(sys, p, Failed)
      else sys
    case LoseReply(p) =>
      if p in sys.processes && sys.processes[p].phase.CognitoPending? && sys.processes[p].hasUsername
      then Move(sys, p, Failed).(db := sys.db.(cognito := sys.db.cognito - {sys.processes[p].subject}))
      else sys
    case DropGuest(g) =>
      if g in sys.db.sessions && Guest(g) in sys.db.profiles && Guest(g) !in sys.db.mapping.Values
      then sys.(db := DeleteUser(sys.db, Guest(g)))
      else sys
    case Authenticate(s) => sys.(events := sys.events + [Authenticated(s, Resolve(sys.db, s))])
  }

  function Run(sys: System, actions: seq<Action>): System {
    if actions == [] then sys else Next(Run(sys, actions[..|actions| - 1]), actions[|actions| - 1])
  }

  /** Nothing is running. */
  ghost predicate Quiet(sys: System) {
    sys.processes == map[] && sys.locks == map[]
  }

  ghost predicate LocksMatch(sys: System) {
    && (forall s | s in sys.locks ::
          sys.locks[s] in sys.processes && sys.processes[sys.locks[s]].subject == s
          && InTransaction(sys.processes[sys.locks[s]].phase))
    && (forall p | p in sys.processes && InTransaction(sys.processes[p].phase) ::
          sys.processes[p].subject in sys.locks && sys.locks[sys.processes[p].subject] == p)
  }

  /** What a process has learnt about the tombstone stays true until its transaction ends, and what it has left
      behind stays true for good. */
  ghost predicate PhaseFits(db: Db, process: Process) {
    var s := process.subject;
    match process.phase
    case Checked => s !in db.tombstones
    case Loaded(_, _) => s !in db.tombstones
    case Profiled(_, _) => process.kind.Provision? && s !in db.tombstones
    case Bound(_) => (process.kind.Provision? || process.kind.Upgrade?) && s !in db.tombstones
    case Erased(_) => process.kind.Delete? && s !in db.tombstones
    case Marked(_) => process.kind == Delete(false) && s !in db.tombstones
    case Merging(_) => process.kind.Merge? && s !in db.tombstones
    case Skipping => process.kind.Delete? && s in db.tombstones
    case CognitoPending => process.kind == Delete(false) && s in db.tombstones
    case Returned => process.kind == Delete(false) ==> s in db.tombstones && s !in db.cognito
    case _ => true
  }

  ghost predicate Safe(sys: System) {
    LocksMatch(sys) && forall p | p in sys.processes :: PhaseFits(sys.db, sys.processes[p])
  }

  function RealDeletions(events: seq<Event>, s: nat): nat {
    if events == [] then 0
    else
      RealDeletions(events[..|events| - 1], s) +
      (var e := events[|events| - 1]; if e.DataDeleted? && e.subject == s && e.genuine then 1 else 0)
  }

  lemma OnlyOneHolds(sys: System, p: nat)
    requires LocksMatch(sys) && p in sys.processes && InTransaction(sys.processes[p].phase)
    ensures forall q | q in sys.processes && q != p && InTransaction(sys.processes[q].phase) ::
              sys.processes[q].subject != sys.processes[p].subject
  {
  }

  /** A step of p moves p, takes or drops its lock as it enters or leaves its transaction, and sets a tombstone
      only at the end of a real deletion. */
  ghost predicate StepOf(sys: System, sys': System, p: nat)
    requires p in sys.processes && p in sys'.processes
  {
    var s, before, after := sys.processes[p].subject, sys.processes[p].phase, sys'.processes[p].phase;
    && sys'.processes.Keys == sys.processes.Keys
    && (forall q | q in sys.processes && q != p :: sys'.processes[q] == sys.processes[q])
    && sys'.processes[p] == sys.processes[p].(phase := after)
    && (InTransaction(before) == InTransaction(after) ==> sys'.locks == sys.locks)
    && (!InTransaction(before) && InTransaction(after) ==> s !in sys.locks && sys'.locks == sys.locks[s := p])
    && (InTransaction(before) && !InTransaction(after) ==> sys'.locks == sys.locks - {s})
    && sys'.db.cognito <= sys.db.cognito
    && (sys'.db.tombstones == sys.db.tombstones
        || (InTransaction(before) && sys'.db.tombstones == sys.db.tombstones + {s}))
  }

  lemma MoveIsAStep(sys: System, p: nat, phase: Phase)
    requires p in sys.processes && InTransaction(sys.processes[p].phase) && InTransaction(phase)
    ensures StepOf(sys, Move(sys, p, phase), p)
  {
  }

  lemma FinishIsAStep(sys: System, p: nat, phase: Phase)
    requires p in sys.processes && InTransaction(sys.processes[p].phase) && !InTransaction(phase)
    ensures StepOf(sys, Finish(sys, p, phase), p)
  {
  }

  lemma CommitsAreSteps(sys: System, p: nat, user: UserId, guest: nat)
    requires p in sys.processes && InTransaction(sys.processes[p].phase)
    ensures StepOf(sys, CommitDelete(sys, p, user, true), p) && StepOf(sys, CommitDelete(sys, p, user, false), p)
    ensures StepOf(sys, CommitProvision(sys, p, user, true), p) && StepOf(sys, CommitProvision(sys, p, user, false), p)
    ensures StepOf(sys, CommitLink(sys, p, user, guest), p) && StepOf(sys, CommitMerge(sys, p, user, guest), p)
  {
    FinishIsAStep(sys, p, Returned);
    FinishIsAStep(sys, p, CognitoPending);
    FinishIsAStep(sys, p, Failed);
  }

  lemma OutsideIsAStep(sys: System, p: nat)
    requires p in sys.processes && !InTransaction(sys.processes[p].phase)
    ensures StepOf(sys, Advanced(sys, p), p)
  {
  }

  lemma LockedIsAStep(sys: System, p: nat)
    requires p in sys.processes && sys.processes[p].phase.Locked?
    ensures StepOf(sys, Advanced(sys, p), p)
  {
    hide StepOf, Move, Finish, CommitDelete, CommitProvision, CommitLink, CommitMerge;
    var process := sys.processes[p];
    FinishIsAStep(sys, p, Failed);
    MoveIsAStep(sys, p, Checked);
    MoveIsAStep(sys, p, Skipping);
  }

  lemma SkippingIsAStep(sys: System, p: nat)
    requires p in sys.processes && sys.processes[p].phase.Skipping?
    ensures StepOf(sys, Advanced(sys, p), p)
  {
    hide StepOf, Move, Finish, CommitDelete, CommitProvision, CommitLink, CommitMerge;
    var process := sys.processes[p];
    FinishIsAStep(sys, p, Returned);
    FinishIsAStep(sys, p, CognitoPending);
  }

  lemma CheckedIsAStep(sys: System, p: nat)
    requires p in sys.processes && sys.processes[p].phase.Checked?
    ensures StepOf(sys, Advanced(sys, p), p)
  {
    hide StepOf, Move, Finish, CommitDelete, CommitProvision, CommitLink, CommitMerge;
    var process := sys.processes[p];
    MoveIsAStep(sys, p, Loaded(Resolve(sys.db, process.subject), process.subject in sys.db.mapping));
  }

  lemma LoadedIsAStep(sys: System, p: nat)
    requires p in sys.processes && sys.processes[p].phase.Loaded?
    ensures StepOf(sys, Advanced(sys, p), p)
  {
    hide StepOf, Move, Finish, CommitDelete, CommitProvision, CommitLink, CommitMerge;
    var process := sys.processes[p];
    var s, user := process.subject, process.phase.user;
    match process.kind {
      case Provision => MoveIsAStep(sys, p, Profiled(user, process.phase.mapped));
      case Delete(_) => MoveIsAStep(sys, p, Erased(user));
      case Upgrade(g) =>
        FinishIsAStep(sys, p, Returned);
        MoveIsAStep(sys, p, Bound(if Own(s) in sys.db.profiles then Own(s) else Guest(g)));
      case Merge(g) =>
        FinishIsAStep(sys, p, if process.phase.mapped then Returned else Failed);
        MoveIsAStep(sys, p, Merging(user));
    }
  }

  lemma ProfiledIsAStep(sys: System, p: nat)
    requires p in sys.processes && sys.processes[p].phase.Profiled?
    ensures StepOf(sys, Advanced(sys, p), p)
  {
    hide StepOf, Move, Finish, CommitDelete, CommitProvision, CommitLink, CommitMerge;
    CommitsAreSteps(sys, p, sys.processes[p].phase.user, 0);
    FinishIsAStep(sys, p, Failed);
    MoveIsAStep(sys, p, Bound(sys.processes[p].phase.user));
  }

  lemma BoundIsAStep(sys: System, p: nat)
    requires p in sys.processes && (sys.processes[p].phase.Bound? || sys.processes[p].phase.Merging?)
    ensures StepOf(sys, Advanced(sys, p), p)
  {
    hide StepOf, Move, Finish, CommitDelete, CommitProvision, CommitLink, CommitMerge;
    var process := sys.processes[p];
    var guest := if process.kind.Upgrade? || process.kind.Merge? then process.kind.guest else 0;
    CommitsAreSteps(sys, p, process.phase.user, guest);
    FinishIsAStep(sys, p, Failed);
  }

  lemma ErasedIsAStep(sys: System, p: nat)
    requires p in sys.processes && (sys.processes[p].phase.Erased? || sys.processes[p].phase.Marked?)
    ensures StepOf(sys, Advanced(sys, p), p)
  {
    hide StepOf, Move, Finish, CommitDelete, CommitProvision, CommitLink, CommitMerge;
    CommitsAreSteps(sys, p, sys.processes[p].phase.user, 0);
    MoveIsAStep(sys, p, Marked(sys.processes[p].phase.user));
  }

  lemma AdvanceIsAStep(sys: System, p: nat)
    requires p in sys.processes
    ensures StepOf(sys, Advanced(sys, p), p)
  {
    hide StepOf, Advanced;
    match sys.processes[p].phase {
      case Locked => LockedIsAStep(sys, p);
      case Skipping => SkippingIsAStep(sys, p);
      case Checked => CheckedIsAStep(sys, p);
      case Loaded(_, _) => LoadedIsAStep(sys, p);
      case Waiting => OutsideIsAStep(sys, p);
      case CognitoPending => OutsideIsAStep(sys, p);
      case Returned => OutsideIsAStep(sys, p);
      case Failed => OutsideIsAStep(sys, p);
      case Profiled(_, _) => ProfiledIsAStep(sys, p);
      case Bound(_) => BoundIsAStep(sys, p);
      case Merging(_) => BoundIsAStep(sys, p);
      case Erased(_) => ErasedIsAStep(sys, p);
      case Marked(_) => ErasedIsAStep(sys, p);
    }
  }

  lemma FailureIsAStep(sys: System, p: nat)
    requires p in sys.processes
    ensures StepOf(sys, Next(sys, Fail(p)), p)
    ensures StepOf(sys, Next(sys, LoseReply(p)), p)
  {
  }

  lemma StepKeepsLocks(sys: System, sys': System, p: nat)
    requires LocksMatch(sys) && p in sys.processes && p in sys'.processes && StepOf(sys, sys', p)
    ensures LocksMatch(sys')
  {
    if InTransaction(sys.processes[p].phase) {
      OnlyOneHolds(sys, p);
    }
  }

  lemma StepKeepsSafe(sys: System, sys': System, p: nat)
    requires Safe(sys) && p in sys.processes && p in sys'.processes && StepOf(sys, sys', p)
    requires PhaseFits(sys'.db, sys'.processes[p])
    ensures Safe(sys')
  {
    StepKeepsLocks(sys, sys', p);
    if InTransaction(sys.processes[p].phase) {
      OnlyOneHolds(sys, p);
    }
    hide LocksMatch;
    forall q | q in sys'.processes ensures PhaseFits(sys'.db, sys'.processes[q]) {
      assert PhaseFits(sys.db, sys.processes[q]);
    }
  }

  /** How a transaction's commits leave the tombstone, the Cognito user and the process itself. */
  lemma CommittedPhaseFits(sys: System, p: nat, user: UserId)
    requires Safe(sys) && p in sys.processes && InTransaction(sys.processes[p].phase)
    ensures var sys' := CommitDelete(sys, p, user, false);
            sys.processes[p].kind == Delete(false) ==> PhaseFits(sys'.db, sys'.processes[p])
    ensures var sys' := CommitDelete(sys, p, user, true);
            sys.processes[p].kind == Delete(true) ==> PhaseFits(sys'.db, sys'.processes[p])
    ensures forall bind | !sys.processes[p].kind.Delete? :: var sys' := CommitProvision(sys, p, user, bind); PhaseFits(sys'.db, sys'.processes[p])
    ensures forall guest | !sys.processes[p].kind.Delete? :: var sys' := CommitLink(sys, p, user, guest); PhaseFits(sys'.db, sys'.processes[p])
    ensures forall guest | !sys.processes[p].kind.Delete? :: var sys' := CommitMerge(sys, p, user, guest); PhaseFits(sys'.db, sys'.processes[p])
  {
    hide LocksMatch, Resolve;
  }

  lemma MovedPhaseFits(sys: System, p: nat, phase: Phase)
    requires p in sys.processes && PhaseFits(sys.db, sys.processes[p].(phase := phase))
    ensures PhaseFits(Move(sys, p, phase).db, Move(sys, p, phase).processes[p])
    ensures PhaseFits(Finish(sys, p, phase).db, Finish(sys, p, phase).processes[p])
  {
    hide PhaseFits;
  }

  lemma OutsidePhaseFits(sys: System, p: nat)
    requires Safe(sys) && p in sys.processes && !InTransaction(sys.processes[p].phase)
    ensures PhaseFits(Advanced(sys, p).db, Advanced(sys, p).processes[p])
  {
    hide LocksMatch, CommitDelete, CommitProvision, CommitLink, CommitMerge, Resolve;
    assert PhaseFits(sys.db, sys.processes[p]);
  }

  lemma AdvancedPhaseFits(sys: System, p: nat)
    requires Safe(sys) && p in sys.processes
    ensures PhaseFits(Advanced(sys, p).db, Advanced(sys, p).processes[p])
  {
    var process := sys.processes[p];
    assert PhaseFits(sys.db, process);
    hide Safe, Resolve, Move, Finish, CommitDelete, CommitProvision, CommitLink, CommitMerge;
    match process.phase {
      case Locked =>
        MovedPhaseFits(sys, p, if process.subject !in sys.db.tombstones then Checked else if process.kind.Delete? then Skipping else Failed);
      case Skipping => MovedPhaseFits(sys, p, if process.kind == Delete(true) then Returned else CognitoPending);
      case Checked => MovedPhaseFits(sys, p, Loaded(Resolve(sys.db, process.subject), process.subject in sys.db.mapping));
      case Loaded(user, mapped) => LoadedPhaseFits(sys, p);
      case Profiled(user, mapped) =>
        CommittedPhaseFits(sys, p, user);
        MovedPhaseFits(sys, p, Failed);
        MovedPhaseFits(sys, p, Bound(user));
      case Bound(user) => CommittedPhaseFits(sys, p, user);
      case Erased(user) =>
        CommittedPhaseFits(sys, p, user);
        if process.kind == Delete(false) {
          MovedPhaseFits(sys, p, Marked(user));
        }
      case Marked(user) => CommittedPhaseFits(sys, p, user);
      case Merging(user) => CommittedPhaseFits(sys, p, user);
      case _ => OutsidePhaseFits(sys, p);
    }
  }

  lemma LoadedPhaseFits(sys: System, p: nat)
    requires p in sys.processes && sys.processes[p].phase.Loaded? && PhaseFits(sys.db, sys.processes[p])
    ensures PhaseFits(Advanced(sys, p).db, Advanced(sys, p).processes[p])
  {
  }

  lemma FailedPhaseFits(sys: System, p: nat)
    requires Safe(sys) && p in sys.processes
    ensures PhaseFits(Next(sys, Fail(p)).db, Next(sys, Fail(p)).processes[p])
    ensures PhaseFits(Next(sys, LoseReply(p)).db, Next(sys, LoseReply(p)).processes[p])
  {
    hide LocksMatch;
    assert PhaseFits(sys.db, sys.processes[p]);
  }

  lemma StartKeepsSafe(sys: System, p: nat, s: nat, kind: Kind, hasUsername: bool)
    requires Safe(sys)
    ensures Safe(Next(sys, Start(p, s, kind, hasUsername)))
  {
  }

  lemma NextKeepsSafe(sys: System, a: Action)
    requires Safe(sys)
    ensures Safe(Next(sys, a))
  {
    match a {
      case Start(p, s, kind, hasUsername) =>
        StartKeepsSafe(sys, p, s, kind, hasUsername);
      case Advance(p) =>
        hide Advanced, Safe, StepOf;
        if p in sys.processes {
          AdvanceIsAStep(sys, p);
          AdvancedPhaseFits(sys, p);
          StepKeepsSafe(sys, Advanced(sys, p), p);
        }
      case Authenticate(_) =>
      case DropGuest(_) =>
      case _ =>
        var p := a.p;
        if p in sys.processes {
          FailureIsAStep(sys, p);
          FailedPhaseFits(sys, p);
          StepKeepsSafe(sys, Next(sys, a), p);
        }
    }
  }

  lemma {:induction false} RunKeepsSafe(sys: System, actions: seq<Action>)
    requires Safe(sys)
    ensures Safe(Run(sys, actions))
  {
    hide Safe, Next;
    if actions != [] {
      RunKeepsSafe(sys, actions[..|actions| - 1]);
      NextKeepsSafe(Run(sys, actions[..|actions| - 1]), actions[|actions| - 1]);
    }
  }

  lemma QuietIsSafe(sys: System)
    requires Quiet(sys)
    ensures Safe(sys)
  {
  }

  /** What one step of a process writes: nothing, or the commit its phase stands before, with its event. */
  ghost predicate Effect(db: Db, events: seq<Event>, db': Db, events': seq<Event>, process: Process) {
    var s, phase := process.subject, process.phase;
    if events' == events then
      db'.mapping == db.mapping && db'.tombstones == db.tombstones && db'.sessions == db.sessions
    else if phase.Profiled? then
      && phase.mapped && events' == events + [Provisioned(s, phase.user)]
      && db'.mapping == db.mapping && db'.tombstones == db.tombstones && db'.sessions == db.sessions
    else if phase.Bound? && process.kind.Upgrade? then
      && process.kind.guest in db.sessions && (s in db.mapping ==> db.mapping[s] == phase.user)
      && events' == events + [Linked(s, phase.user)] && db'.sessions == db.sessions
      && db'.mapping == db.mapping[s := phase.user] && db'.tombstones == db.tombstones
    else if phase.Bound? then
      && events' == events + [Provisioned(s, phase.user)] && db'.tombstones == db.tombstones && db'.sessions == db.sessions
      && db'.mapping == if s in db.mapping then db.mapping else db.mapping[s := Own(s)]
    else if phase.Merging? then
      && process.kind.Merge? && process.kind.guest in db.sessions
      && events' == events + [Merged(s, phase.user, process.kind.guest)]
      && db' == DeleteUser(db, Guest(process.kind.guest))
    else
      && (phase.Erased? || phase.Marked?) && events' == events + [DataDeleted(s, phase.user, phase.Marked?)]
      && db' == DeleteUser(db, phase.user).(tombstones := db.tombstones + if phase.Marked? then {s} else {})
  }

  lemma CommitsHaveEffect(sys: System, p: nat, user: UserId)
    requires p in sys.processes
    ensures forall demo :: CommitDelete(sys, p, user, demo).events == sys.events + [DataDeleted(sys.processes[p].subject, user, !demo)]
    ensures forall bind :: CommitProvision(sys, p, user, bind).events == sys.events + [Provisioned(sys.processes[p].subject, user)]
    ensures sys.processes[p].phase == Erased(user) ==>
              var sys' := CommitDelete(sys, p, user, true); Effect(sys.db, sys.events, sys'.db, sys'.events, sys.processes[p])
    ensures sys.processes[p].phase == Marked(user) ==>
              var sys' := CommitDelete(sys, p, user, false); Effect(sys.db, sys.events, sys'.db, sys'.events, sys.processes[p])
    ensures sys.processes[p].phase == Profiled(user, true) ==>
              var sys' := CommitProvision(sys, p, user, false); Effect(sys.db, sys.events, sys'.db, sys'.events, sys.processes[p])
    ensures sys.processes[p].phase == Bound(user) && !sys.processes[p].kind.Upgrade? ==>
              var sys' := CommitProvision(sys, p, user, true); Effect(sys.db, sys.events, sys'.db, sys'.events, sys.processes[p])
    ensures sys.processes[p].phase == Bound(user) && sys.processes[p].kind.Upgrade? ==>
              var sys' := CommitLink(sys, p, user, sys.processes[p].kind.guest);
              Effect(sys.db, sys.events, sys'.db, sys'.events, sys.processes[p])
    ensures sys.processes[p].phase == Merging(user) && sys.processes[p].kind.Merge? ==>
              var sys' := CommitMerge(sys, p, user, sys.processes[p].kind.guest);
              Effect(sys.db, sys.events, sys'.db, sys'.events, sys.processes[p])
  {
    var events := sys.events;
    assert forall e :: events + [e] != events by {
      assert forall e :: |events + [e]| == |events| + 1;
    }
    hide DeleteUser;
  }

  lemma AdvanceHasEffect(sys: System, p: nat)
    requires p in sys.processes
    ensures Effect(sys.db, sys.events, Advanced(sys, p).db, Advanced(sys, p).events, sys.processes[p])
  {
    hide CommitDelete, CommitProvision, CommitLink, CommitMerge, Resolve;
    forall user { CommitsHaveEffect(sys, p, user); }
  }

  lemma OtherActionsHaveNoEffect(sys: System, a: Action)
    requires !(a.Advance? && a.p in sys.processes)
    ensures var db' := Next(sys, a).db;
            db'.mapping == sys.db.mapping && db'.tombstones == sys.db.tombstones && db'.sessions <= sys.db.sessions
            && db'.cognito <= sys.db.cognito
    ensures Next(sys, a).events == if a.Authenticate? then sys.events + [Authenticated(a.subject, Resolve(sys.db, a.subject))] else sys.events
  {
  }

  lemma NextIsAdvanced(sys: System, p: nat)
    requires p in sys.processes
    ensures Next(sys, Advance(p)) == Advanced(sys, p)
  {
  }

  /** One action: tombstones only grow and Cognito users only go; only authentication still names a tombstoned
      subject in an event; a subject is tombstoned exactly by a real deletion of its data. */
  lemma StepIsSafe(sys: System, a: Action)
    requires Safe(sys)
    ensures var sys' := Next(sys, a);
            && sys.db.tombstones <= sys'.db.tombstones && sys'.db.cognito <= sys.db.cognito
            && (sys'.events == sys.events || exists e :: sys'.events == sys.events + [e])
            && (sys'.events == sys.events ==> sys'.db.tombstones == sys.db.tombstones)
            && forall e | sys'.events == sys.events + [e] ::
                 && (!e.Authenticated? ==> e.subject !in sys.db.tombstones)
                 && sys'.db.tombstones ==
                    sys.db.tombstones + if e.DataDeleted? && e.genuine then {e.subject} else {}
  {
    var sys' := Next(sys, a);
    if a.Advance? && a.p in sys.processes {
      assert PhaseFits(sys.db, sys.processes[a.p]);
      NextIsAdvanced(sys, a.p);
      AdvanceHasEffect(sys, a.p);
      AdvanceIsAStep(sys, a.p);
    } else {
      OtherActionsHaveNoEffect(sys, a);
    }
    hide LocksMatch, Next, Advanced;
    forall e | sys'.events == sys.events + [e]
      ensures e == sys'.events[|sys.events|] && sys'.events != sys.events
    {
    }
  }

  lemma {:induction false} RunOnlyAppends(sys: System, actions: seq<Action>, n: nat)
    requires Safe(sys) && n <= |actions|
    ensures Run(sys, actions[..n]).events <= Run(sys, actions).events
    ensures Run(sys, actions[..n]).db.tombstones <= Run(sys, actions).db.tombstones
    ensures forall i | |Run(sys, actions[..n]).events| <= i < |Run(sys, actions).events| ::
              var e := Run(sys, actions).events[i];
              e.Authenticated? || e.subject !in Run(sys, actions[..n]).db.tombstones
    decreases |actions|
  {
    hide Safe, Next;
    if n == |actions| {
      assert actions[..n] == actions;
    } else {
      var shorter := actions[..|actions| - 1];
      assert shorter[..n] == actions[..n];
      RunOnlyAppends(sys, shorter, n);
      RunKeepsSafe(sys, shorter);
      StepIsSafe(Run(sys, shorter), actions[|actions| - 1]);
    }
  }

  /** Once a subject is tombstoned, whatever runs or was already running, it is never provisioned or linked again and
      none of its data is deleted again. */
  lemma TombstonedSubjectsStayGone(sys: System, actions: seq<Action>, n: nat, i: nat)
    requires Quiet(sys) && n <= |actions|
    requires |Run(sys, actions[..n]).events| <= i < |Run(sys, actions).events|
    requires Run(sys, actions).events[i].subject in Run(sys, actions[..n]).db.tombstones
    ensures Run(sys, actions).events[i].Authenticated?
    ensures Run(sys, actions).events[i].subject in Run(sys, actions).db.tombstones
  {
    QuietIsSafe(sys);
    RunOnlyAppends(sys, actions, n);
  }

  lemma RealDeletionsAppend(events: seq<Event>, e: Event, s: nat)
    ensures RealDeletions(events + [e], s) ==
            RealDeletions(events, s) + if e.DataDeleted? && e.subject == s && e.genuine then 1 else 0
  {
    assert (events + [e])[..|events|] == events;
  }

  /** However deletions are retried or raced, a run deletes a subject's data by a real deletion at most once: exactly
      once when the run is what gave the subject its tombstone. */
  lemma {:induction false} OneRealDeletion(sys: System, actions: seq<Action>, s: nat)
    requires Quiet(sys)
    ensures var end := Run(sys, actions);
            && sys.db.tombstones <= end.db.tombstones
            && RealDeletions(end.events, s) ==
               RealDeletions(sys.events, s) + if s in end.db.tombstones && s !in sys.db.tombstones then 1 else 0
    decreases |actions|
  {
    if actions != [] {
      hide Next, Safe, RealDeletions;
      var n := |actions| - 1;
      var before, end := Run(sys, actions[..n]), Run(sys, actions);
      OneRealDeletion(sys, actions[..n], s);
      QuietIsSafe(sys);
      RunKeepsSafe(sys, actions[..n]);
      StepIsSafe(before, actions[n]);
      if end.events != before.events {
        var e :| end.events == before.events + [e];
        RealDeletionsAppend(before.events, e, s);
      }
    }
  }

  /** A real deletion that returned normally left the tombstone set and the Cognito user gone, for good, and the run
      has deleted the subject's data once unless it had been deleted before. */
  lemma ReturnedDeletionIsComplete(sys: System, actions: seq<Action>, p: nat)
    requires Quiet(sys) && p in Run(sys, actions).processes
    requires var process := Run(sys, actions).processes[p]; process.kind == Delete(false) && process.phase.Returned?
    ensures var end, s := Run(sys, actions), Run(sys, actions).processes[p].subject;
            && s in end.db.tombstones && s !in end.db.cognito
            && RealDeletions(end.events, s) == RealDeletions(sys.events, s) + if s in sys.db.tombstones then 0 else 1
  {
    QuietIsSafe(sys);
    RunKeepsSafe(sys, actions);
    assert PhaseFits(Run(sys, actions).db, Run(sys, actions).processes[p]);
    OneRealDeletion(sys, actions, Run(sys, actions).processes[p].subject);
  }
}
