/** Deleting one account's data: sole-member workspaces, settings, and the anonymisation of its analytics. */
module AccountErasure {
  import opened Text
  import opened MergeHistory

  datatype Membership = Membership(workspaceId: string, userId: string)

  /** The columns an anonymised event loses: anonymous, session, guest-session, workspace and request ids, device data. */
  datatype Trace = Trace(
    anonymousId: Option<string>,
    sessionId: Option<string>,
    guestSessionId: Option<string>,
    workspaceId: Option<string>,
    requestId: Option<string>,
    device: Option<string>)

  const NO_TRACE := Trace(None, None, None, None, None, None)

  datatype Event = Event(userId: string, subjectUserId: string, trace: Trace, identityState: string, properties: string)

  datatype Link = Link(anonymousId: string, userId: string)

  function Anonymized(e: Event, pseudonym: string): Event {
    Event(pseudonym, pseudonym, NO_TRACE, "anonymized", e.properties)
  }

  lemma AnonymizedColumns(e: Event, pseudonym: string)
    ensures var a := Anonymized(e, pseudonym);
            && a.userId == pseudonym && a.subjectUserId == pseudonym
            && a.trace.anonymousId.None? && a.trace.sessionId.None? && a.trace.guestSessionId.None?
            && a.trace.workspaceId.None? && a.trace.requestId.None? && a.trace.device.None?
            && a.identityState == "anonymized" && a.properties == e.properties
  {
  }

  ghost function LinksOfOthers(links: seq<Link>, history: seq<Merge>, appUserId: string): seq<Link> {
    if links == [] then []
    else
      var before, last := LinksOfOthers(links[..|links| - 1], history, appUserId), links[|links| - 1];
      if LeadsTo(history, last.userId, appUserId) then before else before + [last]
  }

  function MembershipsOfOthers(memberships: seq<Membership>, user: string): seq<Membership> {
    if memberships == [] then []
    else
      var before, last := MembershipsOfOthers(memberships[..|memberships| - 1], user), memberships[|memberships| - 1];
      if last.userId == user then before else before + [last]
  }

  /** The primary key of the membership table. */
  predicate UniqueMemberships(memberships: seq<Membership>) {
    forall i, j | 0 <= i < j < |memberships| :: memberships[i] != memberships[j]
  }

  /** The user is a member, and nobody else is. */
  ghost predicate SoleMember(memberships: seq<Membership>, workspaceId: string, user: string) {
    Membership(workspaceId, user) in memberships
    && forall m | m in memberships && m.workspaceId == workspaceId :: m.userId == user
  }

  function MemberCount(memberships: seq<Membership>, workspaceId: string): nat {
    if memberships == [] then 0
    else
      MemberCount(memberships[..|memberships| - 1], workspaceId)
      + (if memberships[|memberships| - 1].workspaceId == workspaceId then 1 else 0)
  }

  lemma {:induction false} CountIsZero(memberships: seq<Membership>, workspaceId: string)
    ensures MemberCount(memberships, workspaceId) == 0 <==> forall m | m in memberships :: m.workspaceId != workspaceId
  {
    if memberships != [] {
      var n := |memberships| - 1;
      CountIsZero(memberships[..n], workspaceId);
      assert memberships == memberships[..n] + [memberships[n]];
      assert memberships[n] in memberships;
      assert forall m | m in memberships[..n] :: m in memberships;
    }
  }

  /** For a member, a count of one means sole membership. */
  lemma {:induction false} CountOneIsSole(memberships: seq<Membership>, workspaceId: string, user: string)
    requires UniqueMemberships(memberships) && Membership(workspaceId, user) in memberships
    ensures MemberCount(memberships, workspaceId) == 1 <==> SoleMember(memberships, workspaceId, user)
  {
    var n := |memberships| - 1;
    var before, last := memberships[..n], memberships[n];
    var own := Membership(workspaceId, user);
    assert memberships == before + [last];
    assert forall m :: m in memberships <==> m in before || m == last;
    CountIsZero(before, workspaceId);
    if last == own {
      assert own !in before;
    } else {
      CountOneIsSole(before, workspaceId, user);
    }
  }

  class AccountDb {
    var settings: map<string, Option<string>>
    var memberships: seq<Membership>
    var workspaces: set<string>
    var events: seq<Event>
    var links: seq<Link>
    var history: seq<Merge>

    /** Workspaces the user is the only member of: counted over the memberships of all the user's workspaces. */
    method SoleMemberWorkspaces(appUserId: string) returns (soleMemberWorkspaceIds: set<string>)
      requires UniqueMemberships(memberships)
      ensures forall w :: w in soleMemberWorkspaceIds <==> SoleMember(memberships, w, appUserId)
    {
      var membershipCounts: map<string, nat> := map[];
      var workspaceIds: set<string> := {};
      for n := 0 to |memberships|
        invariant forall w :: w in workspaceIds <==> Membership(w, appUserId) in memberships[..n]
        invariant forall w :: (if w in membershipCounts then membershipCounts[w] else 0) == MemberCount(memberships[..n], w)
      {
        var row := memberships[n];
        assert memberships[..n + 1] == memberships[..n] + [row];
        assert memberships[..n + 1][..n] == memberships[..n];
        var currentCount := if row.workspaceId in membershipCounts then membershipCounts[row.workspaceId] else 0;
        membershipCounts := membershipCounts[row.workspaceId := currentCount + 1];
        if row.userId == appUserId {
          workspaceIds := workspaceIds + {row.workspaceId};
        }
      }
      assert memberships[..|memberships|] == memberships;
      soleMemberWorkspaceIds := set w | w in workspaceIds && w in membershipCounts && membershipCounts[w] == 1;
      forall w ensures w in soleMemberWorkspaceIds <==> SoleMember(memberships, w, appUserId) {
        if w in workspaceIds {
          CountOneIsSole(memberships, w, appUserId);
        }
      }
    }

    /** One UPDATE over the events and one DELETE over the links, for all the person's ids. */
    method AnonymizeProductAnalytics(appUserId: string, pseudonym: string)
      modifies `events, `links
      ensures |events| == |old(events)|
      ensures forall i | 0 <= i < |events| ::
                events[i] == if LeadsTo(history, old(events[i].userId), appUserId) then Anonymized(old(events[i]), pseudonym)
                             else old(events[i])
      ensures forall i | 0 <= i < |events| && LeadsTo(history, old(events[i].userId), appUserId) ::
                && events[i].userId == pseudonym && events[i].subjectUserId == pseudonym
                && events[i].trace.anonymousId.None? && events[i].trace.sessionId.None?
                && events[i].trace.guestSessionId.None? && events[i].trace.workspaceId.None?
                && events[i].trace.requestId.None? && events[i].trace.device.None?
                && events[i].identityState == "anonymized" && events[i].properties == old(events[i]).properties
      ensures links == LinksOfOthers(old(links), history, appUserId)
    {
      var personUserIds := LoadAnalyticsUserIdsForPerson(history, appUserId);
      hide LeadsTo, Anonymized;
      var updated: seq<Event> := [];
      for n := 0 to |events|
        invariant |updated| == n
        invariant forall i | 0 <= i < n ::
            updated[i] == if LeadsTo(history, events[i].userId, appUserId) then Anonymized(events[i], pseudonym) else events[i]
      {
        updated := updated + [if events[n].userId in personUserIds then Anonymized(events[n], pseudonym) else events[n]];
      }
      var kept: seq<Link> := [];
      for n := 0 to |links|
        invariant kept == LinksOfOthers(links[..n], history, appUserId)
      {
        assert links[..n + 1][..n] == links[..n];
        if links[n].userId !in personUserIds {
          kept := kept + [links[n]];
        }
      }
      assert links[..|links|] == links;
      forall e { AnonymizedColumns(e, pseudonym); }
      events, links := updated, kept;
    }

    method DeleteAccountData(appUserId: string, pseudonym: string)
      requires UniqueMemberships(memberships)
      modifies this
      ensures settings == old(settings) - {appUserId}
      ensures forall w :: w in workspaces <==> w in old(workspaces) && !SoleMember(old(memberships), w, appUserId)
      ensures memberships == MembershipsOfOthers(old(memberships), appUserId)
      ensures history == old(history)
      ensures |events| == |old(events)|
      ensures forall i | 0 <= i < |events| ::
                events[i] == if LeadsTo(history, old(events[i].userId), appUserId) then Anonymized(old(events[i]), pseudonym)
                             else old(events[i])
      ensures forall i | 0 <= i < |events| && LeadsTo(history, old(events[i].userId), appUserId) ::
                && events[i].userId == pseudonym && events[i].subjectUserId == pseudonym
                && events[i].trace.anonymousId.None? && events[i].trace.sessionId.None?
                && events[i].trace.guestSessionId.None? && events[i].trace.workspaceId.None?
                && events[i].trace.requestId.None? && events[i].trace.device.None?
                && events[i].identityState == "anonymized" && events[i].properties == old(events[i]).properties
      ensures links == LinksOfOthers(old(links), history, appUserId)
      ensures !LeadsTo(history, pseudonym, appUserId) ==>
                && KeyedByOthers(events, links, history, appUserId)
                && (SubjectsAreOthers(events, history, appUserId) <==> SubjectsFollowUsers(old(events), history, appUserId))
    {
      var soleMemberWorkspaceIds := SoleMemberWorkspaces(appUserId);
      // Deleting a workspace cascades to its memberships, deleting the settings row to the user's own.
      workspaces := workspaces - soleMemberWorkspaceIds;
      var kept: seq<Membership> := [];
      for n := 0 to |memberships|
        invariant kept == MembershipsOfOthers(memberships[..n], appUserId)
      {
        assert memberships[..n + 1][..n] == memberships[..n];
        if memberships[n].workspaceId !in soleMemberWorkspaceIds && memberships[n].userId != appUserId {
          kept := kept + [memberships[n]];
        } else {
          assert memberships[n] in memberships;
        }
      }
      assert memberships[..|memberships|] == memberships;
      memberships := kept;
      settings := settings - {appUserId};
      AnonymizeProductAnalytics(appUserId, pseudonym);
      if !LeadsTo(history, pseudonym, appUserId) {
        NoEventNamesThePerson(old(events), events, old(links), history, appUserId, pseudonym);
      }
    }
  }

  /** Every event that names the person as its subject is also keyed by one of the person's ids. */
  ghost predicate SubjectsFollowUsers(events: seq<Event>, history: seq<Merge>, appUserId: string) {
    forall e | e in events :: LeadsTo(history, e.subjectUserId, appUserId) ==> LeadsTo(history, e.userId, appUserId)
  }

  /** No event and no link is keyed by an id of the person. */
  ghost predicate KeyedByOthers(events: seq<Event>, links: seq<Link>, history: seq<Merge>, appUserId: string) {
    && (forall e | e in events :: !LeadsTo(history, e.userId, appUserId))
    && (forall l | l in links :: !LeadsTo(history, l.userId, appUserId))
  }

  ghost predicate SubjectsAreOthers(events: seq<Event>, history: seq<Merge>, appUserId: string) {
    forall e | e in events :: !LeadsTo(history, e.subjectUserId, appUserId)
  }

  /** After the rewrite, with a pseudonym that is none of the person's ids, no event and no link is keyed by any of
      them; and none names one of them as its subject if and only if every event that did was keyed by one. */
  lemma NoEventNamesThePerson(
      before: seq<Event>, after: seq<Event>, linksBefore: seq<Link>, history: seq<Merge>, appUserId: string, pseudonym: string)
    requires |after| == |before|
    requires forall i | 0 <= i < |after| ::
               after[i] == if LeadsTo(history, before[i].userId, appUserId) then Anonymized(before[i], pseudonym) else before[i]
    requires !LeadsTo(history, pseudonym, appUserId)
    ensures KeyedByOthers(after, LinksOfOthers(linksBefore, history, appUserId), history, appUserId)
    ensures SubjectsAreOthers(after, history, appUserId) <==> SubjectsFollowUsers(before, history, appUserId)
  {
    hide LeadsTo;
    forall l | l in LinksOfOthers(linksBefore, history, appUserId) ensures !LeadsTo(history, l.userId, appUserId) {
      RemainingLinks(linksBefore, history, appUserId, l);
    }
    forall e | e in after ensures !LeadsTo(history, e.userId, appUserId) {
    }
    if SubjectsAreOthers(after, history, appUserId) {
      forall e | e in before && LeadsTo(history, e.subjectUserId, appUserId) ensures LeadsTo(history, e.userId, appUserId) {
        var i :| 0 <= i < |before| && before[i] == e;
        assert after[i] in after;
      }
    }
    if SubjectsFollowUsers(before, history, appUserId) {
      forall e | e in after ensures !LeadsTo(history, e.subjectUserId, appUserId) {
        var i :| 0 <= i < |after| && after[i] == e;
        assert before[i] in before;
      }
    }
  }

  /** The remaining links are exactly other people's, in their old order. */
  lemma {:induction false} RemainingLinks(links: seq<Link>, history: seq<Merge>, appUserId: string, l: Link)
    ensures multiset(LinksOfOthers(links, history, appUserId))[l] ==
            if LeadsTo(history, l.userId, appUserId) then 0 else multiset(links)[l]
  {
    hide LeadsTo;
    if links != [] {
      var n := |links| - 1;
      assert links == links[..n] + [links[n]];
      RemainingLinks(links[..n], history, appUserId, l);
    }
  }

  /** Nobody else loses a membership, and nobody else's workspace goes. */
  lemma OthersKeepTheirWorkspaces(memberships: seq<Membership>, user: string, m: Membership)
    requires m in memberships && m.userId != user
    ensures m in MembershipsOfOthers(memberships, user) && !SoleMember(memberships, m.workspaceId, user)
  {
    MembershipKept(memberships, user, m);
  }

  lemma {:induction false} MembershipKept(memberships: seq<Membership>, user: string, m: Membership)
    ensures m in MembershipsOfOthers(memberships, user) <==> m in memberships && m.userId != user
  {
    if memberships != [] {
      var n := |memberships| - 1;
      assert memberships == memberships[..n] + [memberships[n]];
      MembershipKept(memberships[..n], user, m);
    }
  }
}
