/** Runs of the identity protocol built step by step: single transactions from their start to their commit. */
module IdentityRuns {
  import opened IdentityProtocol

  lemma RunAppend(sys: System, actions: seq<Action>, a: Action)
    ensures Run(sys, actions + [a]) == Next(Run(sys, actions), a)
  {
    assert (actions + [a])[..|actions|] == actions;
  }

  function Repeat(a: Action, n: nat): seq<Action> { seq(n, _ => a) }

  function NextTimes(sys: System, a: Action, n: nat): System {
    if n == 0 then sys else Next(NextTimes(sys, a, n - 1), a)
  }

  lemma {:induction false} RunRepeat(sys: System, a0: Action, a: Action, n: nat)
    ensures Run(sys, [a0] + Repeat(a, n)) == NextTimes(Next(sys, a0), a, n)
  {
    hide Next;
    if n == 0 {
      RunOne(sys, a0);
      assert [a0] + Repeat(a, 0) == [a0];
    } else {
      RunRepeat(sys, a0, a, n - 1);
      RunAppend(sys, [a0] + Repeat(a, n - 1), a);
      assert [a0] + Repeat(a, n) == [a0] + Repeat(a, n - 1) + [a];
    }
  }

  lemma RunOne(sys: System, a: Action)
    ensures Run(sys, [a]) == Next(sys, a)
  {
    RunAppend(sys, [], a);
    assert [] + [a] == [a];
  }

  lemma {:induction false} RunInTwo(sys: System, first: seq<Action>, second: seq<Action>)
    ensures Run(sys, first + second) == Run(Run(sys, first), second)
    decreases |second|
  {
    if second == [] {
      assert first + second == first;
    } else {
      var n := |second| - 1;
      RunInTwo(sys, first, second[..n]);
      assert (first + second)[..|first + second| - 1] == first + second[..n];
    }
  }

  lemma {:induction false} FreshNat(used: set<nat>) returns (n: nat)
    ensures n !in used
    ensures forall m | m in used :: m < n
  {
    if used == {} {
      n := 0;
    } else {
      var m :| m in used;
      n := FreshNat(used - {m});
      n := if m < n then n else m + 1;
      assert used == (used - {m}) + {m};
    }
  }

  /** A transaction under way, holding its lock. */
  function Underway(sys: System, process: Process, p: nat): System {
    sys.(processes := sys.processes[p := process], locks := sys.locks[process.subject := p])
  }

  lemma UnderwayMoves(sys: System, process: Process, p: nat, phase: Phase)
    ensures Move(Underway(sys, process, p), p, phase) == Underway(sys, process.(phase := phase), p)
    ensures process.phase.Waiting? && process.subject !in sys.locks ==>
              Advanced(sys.(processes := sys.processes[p := process]), p) == Underway(sys, process.(phase := Locked), p)
    ensures process.subject !in sys.locks ==>
              Finish(Underway(sys, process, p), p, phase) == sys.(processes := sys.processes[p := process.(phase := phase)])
  {
    var now := Underway(sys, process, p);
    assert now.processes[p := process.(phase := phase)] == Underway(sys, process.(phase := phase), p).processes;
    assert process.subject !in sys.locks ==> now.locks - {process.subject} == sys.locks;
    assert sys.processes[p := process][p := process.(phase := Locked)] == sys.processes[p := process.(phase := Locked)];
  }

  lemma UnderwayAdvances(sys: System, process: Process, p: nat, phase: Phase)
    requires process.subject !in sys.locks && process.subject !in sys.db.tombstones
    requires var s, u := process.subject, Resolve(sys.db, process.subject);
             || (process.phase == Locked && phase == Checked)
             || (process.phase == Checked && phase == Loaded(u, s in sys.db.mapping))
             || (process.phase.Loaded? && process.kind.Provision? && phase == Profiled(process.phase.user, process.phase.mapped))
             || (process.phase.Loaded? && process.kind.Delete? && phase == Erased(process.phase.user))
             || (process.phase.Loaded? && process.kind.Upgrade? && !process.phase.mapped
                 && phase == Bound(if Own(s) in sys.db.profiles then Own(s) else Guest(process.kind.guest)))
             || (process.phase.Loaded? && process.kind.Merge? && process.phase.mapped
                 && process.phase.user != Guest(process.kind.guest) && phase == Merging(process.phase.user))
             || (process.phase.Erased? && process.kind == Delete(false) && phase == Marked(process.phase.user))
             || (process.phase.Profiled? && !process.phase.mapped && s !in sys.db.mapping && phase == Bound(process.phase.user))
    ensures Next(Underway(sys, process, p), Advance(p)) == Underway(sys, process.(phase := phase), p)
  {
    hide Move, Finish, CommitDelete, CommitProvision, CommitLink, CommitMerge;
    UnderwayMoves(sys, process, p, phase);
  }

  lemma Begins(sys: System, s: nat, kind: Kind, named: bool, p: nat)
    requires p !in sys.processes && s !in sys.locks
    ensures Next(Next(sys, Start(p, s, kind, named)), Advance(p)) == Underway(sys, Process(s, kind, named, Locked), p)
  {
    UnderwayMoves(sys, Process(s, kind, named, Waiting), p, Locked);
  }

  /** From the start of a transaction to its fourth step, when it knows its user. */
  lemma LoadsUser(sys: System, s: nat, kind: Kind, named: bool, p: nat) returns (u: UserId, loaded: System)
    requires p !in sys.processes && s !in sys.locks && s !in sys.db.tombstones
    ensures u == Resolve(sys.db, s)
    ensures loaded == Underway(sys, Process(s, kind, named, Loaded(u, s in sys.db.mapping)), p)
    ensures loaded == NextTimes(Next(sys, Start(p, s, kind, named)), Advance(p), 3)
  {
    u := Resolve(sys.db, s);
    var start, a := Next(sys, Start(p, s, kind, named)), Advance(p);
    var process := Process(s, kind, named, Locked);
    Begins(sys, s, kind, named, p);
    UnderwayAdvances(sys, process, p, Checked);
    UnderwayAdvances(sys, process.(phase := Checked), p, Loaded(u, s in sys.db.mapping));
    hide Next, Underway;
    loaded := Underway(sys, Process(s, kind, named, Loaded(u, s in sys.db.mapping)), p);
    assert NextTimes(start, a, 1) == Underway(sys, process, p);
    assert NextTimes(start, a, 2) == Underway(sys, process.(phase := Checked), p);
  }

  /** A provisioning that has read the subject's mapping and nothing else yet. */
  lemma Ready(sys: System, s: nat, p: nat) returns (end: System)
    requires p !in sys.processes && s !in sys.locks && s !in sys.db.tombstones && s in sys.db.mapping
    ensures end == Run(sys, [Start(p, s, Provision, true)] + Repeat(Advance(p), 3))
    ensures end == Underway(sys, Process(s, Provision, true, Loaded(sys.db.mapping[s], true)), p)
  {
    hide Next, Underway;
    RunRepeat(sys, Start(p, s, Provision, true), Advance(p), 3);
    var u, loaded := LoadsUser(sys, s, Provision, true, p);
    end := loaded;
  }

  function Deletion(s: nat, p: nat): seq<Action> {
    [Start(p, s, Delete(false), true)] + Repeat(Advance(p), 6)
  }

  /** A real deletion from start to commit. */
  lemma Deleted(sys: System, s: nat, p: nat) returns (end: System)
    requires p !in sys.processes && s !in sys.locks && s !in sys.db.tombstones && s in sys.db.mapping
    ensures end == Run(sys, Deletion(s, p))
    ensures end.db == DeleteUser(sys.db, sys.db.mapping[s]).(tombstones := sys.db.tombstones + {s})
    ensures end.processes == sys.processes[p := Process(s, Delete(false), true, CognitoPending)]
    ensures end.locks == sys.locks
    ensures end.events == sys.events + [DataDeleted(s, sys.db.mapping[s], true)]
  {
    var a, start := Advance(p), Next(sys, Start(p, s, Delete(false), true));
    RunRepeat(sys, Start(p, s, Delete(false), true), a, 6);
    var u, loaded := LoadsUser(sys, s, Delete(false), true, p);
    var process := Process(s, Delete(false), true, Loaded(u, true));
    UnderwayAdvances(sys, process, p, Erased(u));
    UnderwayAdvances(sys, process.(phase := Erased(u)), p, Marked(u));
    var marked := Underway(sys, process.(phase := Marked(u)), p);
    UnderwayMoves(sys, process.(phase := Marked(u)), p, CognitoPending);
    end := Next(marked, a);
    assert end == CommitDelete(marked, p, u, false);
    hide Next, Underway, Run;
    assert NextTimes(start, a, 4) == Underway(sys, process.(phase := Erased(u)), p);
    assert NextTimes(start, a, 5) == marked;
  }

  function Upgrading(s: nat, p: nat, g: nat): seq<Action> {
    [Start(p, s, Upgrade(g), true)] + Repeat(Advance(p), 5)
  }

  /** A guest upgrade of a new subject from start to commit. */
  lemma Upgraded(sys: System, s: nat, p: nat, g: nat) returns (end: System)
    requires p !in sys.processes && s !in sys.locks && s !in sys.db.tombstones && s !in sys.db.mapping
    requires Own(s) !in sys.db.profiles && Guest(g) in sys.db.profiles && g in sys.db.sessions
    ensures end == Run(sys, Upgrading(s, p, g))
    ensures end == sys.(db := sys.db.(mapping := sys.db.mapping[s := Guest(g)]),
                        processes := sys.processes[p := Process(s, Upgrade(g), true, Returned)],
                        events := sys.events + [Linked(s, Guest(g))])
  {
    var a, start := Advance(p), Next(sys, Start(p, s, Upgrade(g), true));
    RunRepeat(sys, Start(p, s, Upgrade(g), true), a, 5);
    var u, loaded := LoadsUser(sys, s, Upgrade(g), true, p);
    var process := Process(s, Upgrade(g), true, Loaded(u, false));
    UnderwayAdvances(sys, process, p, Bound(Guest(g)));
    var bound := Underway(sys, process.(phase := Bound(Guest(g))), p);
    UnderwayMoves(sys, process.(phase := Bound(Guest(g))), p, Returned);
    end := Next(bound, a);
    assert end == CommitLink(bound, p, Guest(g), g);
    hide Next, Underway, Run;
    assert NextTimes(start, a, 4) == bound;
  }

  function MergingAway(t: nat, p: nat, g: nat): seq<Action> {
    [Start(p, t, Merge(g), true)] + Repeat(Advance(p), 5)
  }

  /** A guest merged into a mapped subject's account, from start to commit. */
  lemma MergedAway(sys: System, t: nat, p: nat, g: nat) returns (end: System)
    requires p !in sys.processes && t !in sys.locks && t !in sys.db.tombstones && t in sys.db.mapping
    requires sys.db.mapping[t] != Guest(g) && sys.db.mapping[t] in sys.db.profiles
    requires Guest(g) in sys.db.profiles && g in sys.db.sessions
    ensures end == Run(sys, MergingAway(t, p, g))
    ensures end == sys.(db := DeleteUser(sys.db, Guest(g)),
                        processes := sys.processes[p := Process(t, Merge(g), true, Returned)],
                        events := sys.events + [Merged(t, sys.db.mapping[t], g)])
  {
    var a, start := Advance(p), Next(sys, Start(p, t, Merge(g), true));
    RunRepeat(sys, Start(p, t, Merge(g), true), a, 5);
    var u, loaded := LoadsUser(sys, t, Merge(g), true, p);
    var process := Process(t, Merge(g), true, Loaded(u, true));
    UnderwayAdvances(sys, process, p, Merging(u));
    var merging := Underway(sys, process.(phase := Merging(u)), p);
    UnderwayMoves(sys, process.(phase := Merging(u)), p, Returned);
    end := Next(merging, a);
    assert end == CommitMerge(merging, p, u, g);
    hide Next, Underway, Run;
    assert NextTimes(start, a, 4) == merging;
  }

  lemma CommitsDoNotLookBack(sys: System, p: nat, user: UserId, flag: bool, guest: nat, events: seq<Event>)
    requires p in sys.processes
    ensures var s, other := sys.processes[p].subject, sys.(events := events);
            var deleted, provisioned := DataDeleted(s, user, !flag), Provisioned(s, user);
            var linked, merged := Linked(s, user), Merged(s, user, guest);
            && CommitDelete(sys, p, user, flag).events == sys.events + [deleted]
            && CommitDelete(other, p, user, flag) == CommitDelete(sys, p, user, flag).(events := events + [deleted])
            && CommitProvision(sys, p, user, flag).events == sys.events + [provisioned]
            && CommitProvision(other, p, user, flag) == CommitProvision(sys, p, user, flag).(events := events + [provisioned])
            && (CommitLink(sys, p, user, guest).events == sys.events
                || (&& CommitLink(sys, p, user, guest).events == sys.events + [linked]
                    && CommitLink(other, p, user, guest) == CommitLink(sys, p, user, guest).(events := events + [linked])))
            && (CommitMerge(sys, p, user, guest).events == sys.events
                || (&& CommitMerge(sys, p, user, guest).events == sys.events + [merged]
                    && CommitMerge(other, p, user, guest) == CommitMerge(sys, p, user, guest).(events := events + [merged])))
  {
    hide DeleteUser;
  }

  lemma MovesAreSilent(sys: System, p: nat)
    requires p in sys.processes
    ensures forall phase :: Move(sys, p, phase).events == sys.events && Finish(sys, p, phase).events == sys.events
    ensures !CommitPhase(sys.processes[p].phase) ==> Advanced(sys, p).events == sys.events
  {
    hide CommitDelete, CommitProvision, CommitLink, CommitMerge, Resolve;
  }

  predicate CommitPhase(phase: Phase) {
    phase.Profiled? || phase.Bound? || phase.Erased? || phase.Marked? || phase.Merging?
  }

  lemma SameLast(events: seq<Event>, e: Event, e': Event)
    requires events + [e] == events + [e']
    ensures e == e'
  {
    assert (events + [e])[|events|] == e;
  }

  /** The steps of a process do not depend on what has happened before. */
  lemma EventsDoNotMatter(sys: System, p: nat, events: seq<Event>, e: Event)
    requires p in sys.processes && Advanced(sys, p).events == sys.events + [e]
    ensures Advanced(sys.(events := events), p) == Advanced(sys, p).(events := events + [e])
  {
    hide Move, Finish, CommitDelete, CommitProvision, CommitLink, CommitMerge, Resolve;
    var process := sys.processes[p];
    assert |sys.events + [e]| != |sys.events|;
    MovesAreSilent(sys, p);
    var user := process.phase.user;
    var flag := process.phase.Bound? || process.phase.Erased?;
    var guest := if process.kind.Upgrade? || process.kind.Merge? then process.kind.guest else 0;
    CommitsDoNotLookBack(sys, p, user, flag, guest, events);
    forall e' | sys.events + [e] == sys.events + [e'] ensures e == e' {
      SameLast(sys.events, e, e');
    }
  }
}
