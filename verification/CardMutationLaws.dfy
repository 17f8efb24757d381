/** What each card mutation writes, column by column, and which write wins. */
module CardMutationLaws {
  import opened Text
  import opened Lww
  import opened CardModel

  /** A card type as it is stored: trimmed, and "basic" where nothing is left or nothing was given. */
  predicate StoredType(given: Option<string>, stored: string) {
    if given.None? || Trim(given.value) == "" then stored == "basic" else stored == Trim(given.value)
  }

  /** The metadata of a card created without any: a source that names only the creation time. */
  predicate StoredMetadata(given: Option<Metadata>, createdAt: int, stored: Metadata) {
    if given.Some? then stored == given.value
    else
      && stored.source.Some?
      && stored.source.value.createdAt == Some(createdAt)
      && stored.source.value.sourceLabel.None? && stored.source.value.author.None? && stored.source.value.comment.None?
      && stored.source.value.importedAt.None? && stored.source.value.importId.None?
  }

  /** The given tags, each once, in the order in which they first appear. */
  ghost predicate StoredTags(given: seq<string>, stored: seq<string>) {
    && (forall t :: t in stored <==> t in given)
    && (forall i, j | 0 <= i < j < |stored| :: FirstAt(given, stored[i]) < FirstAt(given, stored[j]))
  }

  function FirstAt(tags: seq<string>, t: string): nat {
    if tags == [] || tags[0] == t then 0 else 1 + FirstAt(tags[1..], t)
  }

  lemma {:induction false} FirstAtPrefix(tags: seq<string>, last: string, t: string)
    ensures t in tags ==> FirstAt(tags + [last], t) == FirstAt(tags, t) < |tags|
    ensures t !in tags ==> FirstAt(tags + [last], t) >= |tags|
  {
    if tags != [] {
      assert (tags + [last])[1..] == tags[1..] + [last];
      if tags[0] != t {
        FirstAtPrefix(tags[1..], last, t);
      }
    }
  }

  lemma {:induction false} DedupeStoresTags(tags: seq<string>)
    ensures StoredTags(tags, Dedupe(tags))
  {
    if tags != [] {
      var n := |tags| - 1;
      var before, last := tags[..n], tags[n];
      assert tags == before + [last];
      DedupeStoresTags(before);
      forall i, j | 0 <= i < j < |Dedupe(tags)| ensures FirstAt(tags, Dedupe(tags)[i]) < FirstAt(tags, Dedupe(tags)[j]) {
        FirstAtPrefix(before, last, Dedupe(tags)[i]);
        FirstAtPrefix(before, last, Dedupe(tags)[j]);
      }
    }
  }

  /** One row was written: the others, and the log so far, are as they were, and the log names the write. */
  predicate OnlyWrote(s: State, s': State, id: nat, stamp: Stamp, ws: nat, changeId: Option<nat>) {
    && id in s'.rows && s'.rows[id].stamp == stamp && s'.rows[id].workspaceId == ws
    && s'.rows.Keys == s.rows.Keys + {id}
    && (forall other | other in s.rows && other != id :: s'.rows[other] == s.rows[other])
    && s'.log == s.log + [Change(s.nextChange, ws, id, stamp)] && s'.nextChange == s.nextChange + 1
    && changeId == Some(s.nextChange)
  }

  /** A created card: its texts trimmed, its schedule new, its creation time the client's time of the write. */
  lemma CreateWrites(s: State, ws: nat, id: nat, x: CreateInput, stamp: Stamp, now: int)
    ensures var o := Apply(s, ws, Create(id, x, stamp, now));
            if Trim(x.frontText) == "" then o.result == Err(EmptyFrontText) && o.state == s
            else if id in s.rows then o.result == Err(IdTaken) && o.state == s
            else
              && o.result.Ok? && o.result.value.applied
              && OnlyWrote(s, o.state, id, stamp, ws, o.result.value.changeId) && o.state.facts == s.facts + [id]
              && var row := o.state.rows[id];
                 && o.result.value.card == row
                 && row.frontText == Trim(x.frontText) && row.backText == Trim(x.backText)
                 && StoredType(x.cardType, row.cardType) && StoredMetadata(x.metadata, stamp.clientUpdatedAt, row.metadata)
                 && StoredTags(x.tags, row.tags)
                 && row.createdAt == stamp.clientUpdatedAt && row.updatedAt == now && row.deletedAt.None?
                 && row.schedule.dueAt.None? && row.schedule.reps == 0 && row.schedule.lapses == 0
                 && row.schedule.state == "new" && row.schedule.stepIndex.None?
                 && row.schedule.stability.None? && row.schedule.difficulty.None?
                 && row.schedule.lastReviewedAt.None? && row.schedule.scheduledDays.None?
  {
    hide Trim, Dedupe;
    DedupeStoresTags(x.tags);
  }

  /** An edit changes exactly the supplied columns, the stamp and updatedAt of one live row of the workspace. */
  lemma UpdateWrites(s: State, ws: nat, id: nat, x: UpdateInput, stamp: Stamp, now: int)
    ensures var o := Apply(s, ws, Update(id, x, stamp, now));
            if x.frontText.Some? && Trim(x.frontText.value) == "" then o.result == Err(EmptyFrontText) && o.state == s
            else if x.frontText.None? && x.backText.None? && x.cardType.None? && x.metadata.None? && x.tags.None? then
              o.result == Err(NothingToUpdate) && o.state == s
            else if id !in s.rows || s.rows[id].workspaceId != ws || s.rows[id].deletedAt.Some? then
              o.result == Err(CardNotFound) && o.state == s
            else
              && o.result.Ok? && o.result.value.applied
              && OnlyWrote(s, o.state, id, stamp, ws, o.result.value.changeId) && o.state.facts == s.facts
              && var before, row := s.rows[id], o.state.rows[id];
                 && o.result.value.card == row
                 && row.frontText == (if x.frontText.Some? then Trim(x.frontText.value) else before.frontText)
                 && row.backText == (if x.backText.Some? then Trim(x.backText.value) else before.backText)
                 && (if x.cardType.Some? then StoredType(x.cardType, row.cardType) else row.cardType == before.cardType)
                 && row.metadata == (if x.metadata.Some? then x.metadata.value else before.metadata)
                 && (if x.tags.Some? then StoredTags(x.tags.value, row.tags) else row.tags == before.tags)
                 && row.schedule == before.schedule && row.createdAt == before.createdAt
                 && row.deletedAt.None? && row.updatedAt == now
  {
    hide Trim, Dedupe;
    if x.tags.Some? {
      DedupeStoresTags(x.tags.value);
    }
  }

  /** A deletion marks one live row of the workspace deleted at the client's time, and touches no other column
      but the stamp and updatedAt. */
  lemma DeleteWrites(s: State, ws: nat, id: nat, stamp: Stamp, now: int)
    ensures var o := Apply(s, ws, Delete(id, stamp, now));
            if id !in s.rows || s.rows[id].workspaceId != ws || s.rows[id].deletedAt.Some? then
              o.result == Err(CardNotFound) && o.state == s
            else
              && o.result.Ok? && o.result.value.applied
              && OnlyWrote(s, o.state, id, stamp, ws, o.result.value.changeId) && o.state.facts == s.facts
              && var before, row := s.rows[id], o.state.rows[id];
                 && o.result.value.card == row
                 && row.deletedAt == Some(stamp.clientUpdatedAt) && row.updatedAt == now
                 && row.frontText == before.frontText && row.backText == before.backText
                 && row.cardType == before.cardType && row.metadata == before.metadata && row.tags == before.tags
                 && row.schedule == before.schedule && row.createdAt == before.createdAt
  {
  }

  /** The columns a snapshot always writes. */
  ghost predicate SnapshotColumns(x: Snapshot, row: Row) {
    && row.frontText == Trim(x.frontText) && row.backText == Trim(x.backText) && StoredTags(x.tags, row.tags)
    && row.schedule.dueAt == x.schedule.dueAt && row.schedule.reps == x.schedule.reps
    && row.schedule.lapses == x.schedule.lapses && row.schedule.state == x.schedule.state
    && row.schedule.stepIndex == x.schedule.stepIndex && row.schedule.stability == x.schedule.stability
    && row.schedule.difficulty == x.schedule.difficulty && row.schedule.lastReviewedAt == x.schedule.lastReviewedAt
    && row.schedule.scheduledDays == x.schedule.scheduledDays && row.deletedAt == x.deletedAt
  }

  /** The last writer wins, on the fields of the stamps: a snapshot creates a card it is the first to name; onto a
      stored card of the workspace it is written exactly when its stamp is later, keeping the creation time and what it
      does not state, and changes nothing otherwise. */
  lemma UpsertWrites(s: State, ws: nat, id: nat, x: Snapshot, stamp: Stamp, now: int)
    ensures var o := Apply(s, ws, Upsert(id, x, stamp, now));
            if Trim(x.frontText) == "" then o.result == Err(EmptyFrontText) && o.state == s
            else if id !in s.rows then
              && o.result.Ok? && o.result.value.applied
              && OnlyWrote(s, o.state, id, stamp, ws, o.result.value.changeId) && o.state.facts == s.facts + [id]
              && var row := o.state.rows[id];
                 && o.result.value.card == row && SnapshotColumns(x, row)
                 && StoredType(x.cardType, row.cardType) && StoredMetadata(x.metadata, x.createdAt, row.metadata)
                 && row.createdAt == x.createdAt && row.updatedAt == now
            else if s.rows[id].workspaceId != ws then
              o.result == Err(ForkRequired(s.rows[id].workspaceId)) && o.state == s
            else if !Later(stamp, s.rows[id].stamp) then
              && o.state == s && o.result.Ok? && !o.result.value.applied && o.result.value.card == s.rows[id]
            else
              && o.result.Ok? && o.result.value.applied
              && OnlyWrote(s, o.state, id, stamp, ws, o.result.value.changeId) && o.state.facts == s.facts
              && var before, row := s.rows[id], o.state.rows[id];
                 && o.result.value.card == row && SnapshotColumns(x, row)
                 && StoredType(if x.cardType.Some? then x.cardType else Some(before.cardType), row.cardType)
                 && row.metadata == (if x.metadata.Some? then x.metadata.value else before.metadata)
                 && row.createdAt == before.createdAt && row.updatedAt == now
  {
    hide Trim, Dedupe, Wins, Later;
    DedupeStoresTags(x.tags);
    if id in s.rows {
      LaterWins(stamp, s.rows[id].stamp);
    }
  }
}
