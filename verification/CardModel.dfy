/** Card rows, their change log, and one card mutation as a function of the stored state. */
module CardModel {
  import opened Text
  import opened Lww

  datatype Source = Source(
    sourceLabel: Option<string>,
    author: Option<string>,
    comment: Option<string>,
    createdAt: Option<int>,
    importedAt: Option<int>,
    importId: Option<string>)

  datatype Metadata = Metadata(source: Option<Source>)

  /** The scheduling columns a snapshot carries as one unit. */
  datatype Schedule = Schedule(
    dueAt: Option<int>,
    reps: nat,
    lapses: nat,
    state: string,
    stepIndex: Option<nat>,
    stability: Option<real>,
    difficulty: Option<real>,
    lastReviewedAt: Option<int>,
    scheduledDays: Option<nat>)

  const NEW_SCHEDULE := Schedule(None, 0, 0, "new", None, None, None, None, None)

  datatype Row = Row(
    workspaceId: nat,
    frontText: string,
    backText: string,
    cardType: string,
    metadata: Metadata,
    tags: seq<string>,
    schedule: Schedule,
    createdAt: int,
    stamp: Stamp,
    updatedAt: int,
    deletedAt: Option<int>)

  datatype Snapshot = Snapshot(
    frontText: string,
    backText: string,
    cardType: Option<string>,
    metadata: Option<Metadata>,
    tags: seq<string>,
    schedule: Schedule,
    createdAt: int,
    deletedAt: Option<int>)

  datatype CreateInput = CreateInput(
    frontText: string,
    backText: string,
    cardType: Option<string>,
    metadata: Option<Metadata>,
    tags: seq<string>)

  datatype UpdateInput = UpdateInput(
    frontText: Option<string>,
    backText: Option<string>,
    cardType: Option<string>,
    metadata: Option<Metadata>,
    tags: Option<seq<string>>)

  datatype Change = Change(changeId: nat, workspaceId: nat, cardId: nat, stamp: Stamp)

  /** `facts` lists the creation facts of committed transactions. */
  datatype State = State(rows: map<nat, Row>, log: seq<Change>, nextChange: nat, facts: seq<nat>)

  datatype Error =
    | EmptyFrontText
    | NothingToUpdate
    | CardNotFound
    | IdTaken
    | ForkRequired(conflictingWorkspaceId: nat)
    | EmptyBatch
    | BatchTooLarge
    | DuplicateCardIds

  datatype Receipt = Receipt(card: Row, applied: bool, changeId: Option<nat>)

  /** One mutation. `now` is the database clock; a created card's id is the freshly drawn UUID. */
  datatype Op =
    | Upsert(cardId: nat, snapshot: Snapshot, stamp: Stamp, now: int)
    | Create(cardId: nat, create: CreateInput, stamp: Stamp, now: int)
    | Update(cardId: nat, update: UpdateInput, stamp: Stamp, now: int)
    | Delete(cardId: nat, stamp: Stamp, now: int)

  function NormalizeType(t: string): string {
    if Trim(t) == "" then "basic" else Trim(t)
  }

  function TypeOr(t: Option<string>, fallback: string): string {
    if t.Some? then NormalizeType(t.value) else fallback
  }

  function MetadataOr(m: Option<Metadata>, fallback: Metadata): Metadata {
    if m.Some? then m.value else fallback
  }

  function DefaultMetadata(createdAt: int): Metadata {
    Metadata(Some(Source(None, None, None, Some(createdAt), None, None)))
  }

  /** The tags without repeats, in order of first appearance. */
  function Dedupe(tags: seq<string>): (r: seq<string>)
    ensures forall t :: t in r <==> t in tags
  {
    if tags == [] then []
    else
      var before := Dedupe(tags[..|tags| - 1]);
      var last := tags[|tags| - 1];
      assert tags == tags[..|tags| - 1] + [last];
      if last in tags[..|tags| - 1] then before else before + [last]
  }

  lemma {:induction false} DedupeHasNoRepeats(tags: seq<string>)
    ensures forall i, j | 0 <= i < j < |Dedupe(tags)| :: Dedupe(tags)[i] != Dedupe(tags)[j]
    ensures (forall i, j | 0 <= i < j < |tags| :: tags[i] != tags[j]) ==> Dedupe(tags) == tags
  {
    if tags != [] {
      DedupeHasNoRepeats(tags[..|tags| - 1]);
      assert tags == tags[..|tags| - 1] + [tags[|tags| - 1]];
    }
  }

  method DedupeCardTags(tags: seq<string>) returns (dedupedTags: seq<string>)
    ensures dedupedTags == Dedupe(tags)
  {
    dedupedTags := [];
    var existingTags: set<string> := {};
    for n := 0 to |tags|
      invariant dedupedTags == Dedupe(tags[..n])
      invariant existingTags == set t | t in tags[..n]
    {
      assert tags[..n + 1][..n] == tags[..n];
      if tags[n] !in existingTags {
        existingTags := existingTags + {tags[n]};
        dedupedTags := dedupedTags + [tags[n]];
      }
    }
    assert tags[..|tags|] == tags;
  }

  function Latest(log: seq<Change>, cardId: nat): (r: Option<Change>)
    ensures r.Some? ==> r.value in log && r.value.cardId == cardId
  {
    if log == [] then None
    else if log[|log| - 1].cardId == cardId then Some(log[|log| - 1])
    else Latest(log[..|log| - 1], cardId)
  }

  function LatestId(log: seq<Change>, cardId: nat): Option<nat> {
    match Latest(log, cardId)
    case None => None
    case Some(change) => Some(change.changeId)
  }

  /** The write every mutation ends with: the row is stored and its stamp appended to the change log. */
  function Write(s: State, cardId: nat, row: Row): State {
    s.(rows := s.rows[cardId := row],
       log := s.log + [Change(s.nextChange, row.workspaceId, cardId, row.stamp)],
       nextChange := s.nextChange + 1)
  }

  function Inserted(s: State, cardId: nat, row: Row): State {
    Write(s, cardId, row).(facts := s.facts + [cardId])
  }

  function SnapshotRow(ws: nat, x: Snapshot, stamp: Stamp, now: int): Row {
    Row(ws, Trim(x.frontText), Trim(x.backText), TypeOr(x.cardType, "basic"),
        MetadataOr(x.metadata, DefaultMetadata(x.createdAt)), Dedupe(x.tags), x.schedule, x.createdAt, stamp, now,
        x.deletedAt)
  }

  function SnapshotOver(row: Row, x: Snapshot, stamp: Stamp, now: int): Row {
    row.(frontText := Trim(x.frontText), backText := Trim(x.backText),
         cardType := TypeOr(x.cardType, NormalizeType(row.cardType)), metadata := MetadataOr(x.metadata, row.metadata),
         tags := Dedupe(x.tags), schedule := x.schedule, stamp := stamp, updatedAt := now, deletedAt := x.deletedAt)
  }

  function CreatedRow(ws: nat, x: CreateInput, stamp: Stamp, now: int): Row {
    Row(ws, Trim(x.frontText), Trim(x.backText), TypeOr(x.cardType, "basic"),
        MetadataOr(x.metadata, DefaultMetadata(stamp.clientUpdatedAt)), Dedupe(x.tags), NEW_SCHEDULE,
        stamp.clientUpdatedAt, stamp, now, None)
  }

  function UpdatedRow(row: Row, x: UpdateInput, stamp: Stamp, now: int): Row {
    row.(frontText := if x.frontText.Some? then Trim(x.frontText.value) else row.frontText,
         backText := if x.backText.Some? then Trim(x.backText.value) else row.backText,
         cardType := TypeOr(x.cardType, row.cardType),
         metadata := MetadataOr(x.metadata, row.metadata),
         tags := if x.tags.Some? then Dedupe(x.tags.value) else row.tags,
         stamp := stamp, updatedAt := now)
  }

  predicate NothingSupplied(x: UpdateInput) {
    x.frontText.None? && x.backText.None? && x.cardType.None? && x.metadata.None? && x.tags.None?
  }

  predicate Live(s: State, ws: nat, cardId: nat) {
    cardId in s.rows && s.rows[cardId].workspaceId == ws && s.rows[cardId].deletedAt.None?
  }

  datatype Outcome = Outcome(state: State, result: Result<Receipt, Error>)

  function Written(s: State, cardId: nat, row: Row): Outcome {
    Outcome(Write(s, cardId, row), Ok(Receipt(row, true, Some(s.nextChange))))
  }

  /** One mutation under the workspace lock. */
  function Apply(s: State, ws: nat, op: Op): (o: Outcome)
    ensures o.result.Err? ==> o.state == s
  {
    match op
    case Upsert(id, x, stamp, now) =>
      if Trim(x.frontText) == "" then Outcome(s, Err(EmptyFrontText))
      else if id !in s.rows then
        var row := SnapshotRow(ws, x, stamp, now);
        Outcome(Inserted(s, id, row), Ok(Receipt(row, true, Some(s.nextChange))))
      else if s.rows[id].workspaceId != ws then Outcome(s, Err(ForkRequired(s.rows[id].workspaceId)))
      else if !Wins(stamp, s.rows[id].stamp) then
        Outcome(s, Ok(Receipt(s.rows[id], false, LatestId(s.log, id))))
      else Written(s, id, SnapshotOver(s.rows[id], x, stamp, now))
    case Create(id, x, stamp, now) =>
      if Trim(x.frontText) == "" then Outcome(s, Err(EmptyFrontText))
      else if id in s.rows then Outcome(s, Err(IdTaken))
      else
        var row := CreatedRow(ws, x, stamp, now);
        Outcome(Inserted(s, id, row), Ok(Receipt(row, true, Some(s.nextChange))))
    case Update(id, x, stamp, now) =>
      if x.frontText.Some? && Trim(x.frontText.value) == "" then Outcome(s, Err(EmptyFrontText))
      else if NothingSupplied(x) then Outcome(s, Err(NothingToUpdate))
      else if !Live(s, ws, id) then Outcome(s, Err(CardNotFound))
      else Written(s, id, UpdatedRow(s.rows[id], x, stamp, now))
    case Delete(id, stamp, now) =>
      if !Live(s, ws, id) then Outcome(s, Err(CardNotFound))
      else Written(s, id, s.rows[id].(deletedAt := Some(stamp.clientUpdatedAt), stamp := stamp, updatedAt := now))
  }

  datatype Batch = Batch(state: State, result: Result<seq<Receipt>, Error>)

  /** Mutations in one transaction, up to the first failure. */
  function ApplyAll(s: State, ws: nat, ops: seq<Op>): (b: Batch)
    ensures b.result.Ok? ==> |b.result.value| == |ops|
  {
    if ops == [] then Batch(s, Ok([]))
    else
      var before := ApplyAll(s, ws, ops[..|ops| - 1]);
      if before.result.Err? then before
      else
        var o := Apply(before.state, ws, ops[|ops| - 1]);
        match o.result
        case Err(error) => Batch(o.state, Err(error))
        case Ok(receipt) => Batch(o.state, Ok(before.result.value + [receipt]))
  }

  /** A transaction commits all its writes or none. Change ids come from a sequence, which rollback does not rewind. */
  function Transact(s: State, ws: nat, ops: seq<Op>): Batch {
    var b := ApplyAll(s, ws, ops);
    if b.result.Ok? then b else Batch(s.(nextChange := b.state.nextChange), b.result)
  }
}
