/** The card mutations as the service runs them: statements inside a workspace transaction that commits or rolls back. */
module CardStore {
  import opened Text
  import opened Lww
  import opened CardModel
  import opened CardUpdateSql

  const MAX_CARD_BATCH_SIZE := 100

  predicate UniqueCardIds(ops: seq<Op>) {
    forall i, j | 0 <= i < j < |ops| :: ops[i].cardId != ops[j].cardId
  }

  predicate AllCreate(ops: seq<Op>) { forall k | 0 <= k < |ops| :: ops[k].Create? }

  predicate AllUpdate(ops: seq<Op>) { forall k | 0 <= k < |ops| :: ops[k].Update? }

  predicate AllDelete(ops: seq<Op>) { forall k | 0 <= k < |ops| :: ops[k].Delete? }

  method HasUniqueCardIds(ops: seq<Op>) returns (unique: bool)
    ensures unique <==> UniqueCardIds(ops)
  {
    var seen: set<nat> := {};
    for n := 0 to |ops|
      invariant seen == set i | 0 <= i < n :: ops[i].cardId
      invariant UniqueCardIds(ops[..n])
    {
      if ops[n].cardId in seen {
        return false;
      }
      seen := seen + {ops[n].cardId};
      assert ops[..n + 1] == ops[..n] + [ops[n]];
    }
    assert ops[..|ops|] == ops;
    return true;
  }

  class Store {
    var rows: map<nat, Row>
    var log: seq<Change>
    var nextChange: nat
    var facts: seq<nat>
    /** Creations the open transaction has collected; reported only after it commits. */
    var collected: seq<nat>

    constructor ()
      ensures View() == State(map[], [], 1, []) && collected == []
    {
      rows, log, nextChange, facts, collected := map[], [], 1, [], [];
    }

    function View(): State
      reads this
    {
      State(rows, log, nextChange, facts + collected)
    }

    method RecordCardSyncChange(cardId: nat, row: Row) returns (changeId: nat)
      modifies `log, `nextChange
      ensures changeId == old(nextChange) && nextChange == changeId + 1
      ensures log == old(log) + [Change(changeId, row.workspaceId, cardId, row.stamp)]
    {
      changeId := nextChange;
      nextChange := nextChange + 1;
      log := log + [Change(changeId, row.workspaceId, cardId, row.stamp)];
    }

    method Insert(cardId: nat, row: Row) returns (changeId: nat)
      modifies `rows, `log, `nextChange, `collected
      ensures changeId == old(nextChange) && View() == Inserted(old(View()), cardId, row)
    {
      rows := rows[cardId := row];
      changeId := RecordCardSyncChange(cardId, row);
      collected := collected + [cardId];
    }

    method Replace(cardId: nat, row: Row) returns (changeId: nat)
      modifies `rows, `log, `nextChange
      ensures changeId == old(nextChange) && View() == Write(old(View()), cardId, row)
    {
      rows := rows[cardId := row];
      changeId := RecordCardSyncChange(cardId, row);
    }

    method FindLatestSyncChangeId(cardId: nat) returns (r: Option<nat>)
      ensures r == LatestId(log, cardId)
    {
      var n := |log|;
      assert log[..n] == log;
      while n > 0
        invariant 0 <= n <= |log|
        invariant Latest(log, cardId) == Latest(log[..n], cardId)
      {
        assert log[..n][..n - 1] == log[..n - 1];
        if log[n - 1].cardId == cardId {
          return Some(log[n - 1].changeId);
        }
        n := n - 1;
      }
      return None;
    }

    method UpsertCardSnapshotInExecutor(ws: nat, cardId: nat, input: Snapshot, stamp: Stamp, now: int)
      returns (r: Result<Receipt, Error>)
      modifies `rows, `log, `nextChange, `collected
      ensures Outcome(View(), r) == Apply(old(View()), ws, Upsert(cardId, input, stamp, now))
      ensures cardId in old(rows) && r.Ok? ==> (r.value.applied <==> Later(stamp, old(rows[cardId].stamp)))
    {
      if cardId in rows {
        LaterWins(stamp, rows[cardId].stamp);
      }
      var frontText := Trim(input.frontText);
      if frontText == "" {
        return Err(EmptyFrontText);
      }
      var tags := DedupeCardTags(input.tags);
      if cardId !in rows {
        var row := Row(ws, frontText, Trim(input.backText), TypeOr(input.cardType, "basic"),
                       MetadataOr(input.metadata, DefaultMetadata(input.createdAt)), tags, input.schedule,
                       input.createdAt, stamp, now, input.deletedAt);
        var changeId := Insert(cardId, row);
        return Ok(Receipt(row, true, Some(changeId)));
      }
      var existing := rows[cardId];
      if existing.workspaceId != ws {
        return Err(ForkRequired(existing.workspaceId));
      }
      if !Wins(stamp, existing.stamp) {
        var latest := FindLatestSyncChangeId(cardId);
        return Ok(Receipt(existing, false, latest));
      }
      var row := Row(ws, frontText, Trim(input.backText), TypeOr(input.cardType, NormalizeType(existing.cardType)),
                     MetadataOr(input.metadata, existing.metadata), tags, input.schedule,
                     existing.createdAt, stamp, now, input.deletedAt);
      var changeId := Replace(cardId, row);
      return Ok(Receipt(row, true, Some(changeId)));
    }

    method CreateCardInExecutor(ws: nat, cardId: nat, input: CreateInput, stamp: Stamp, now: int)
      returns (r: Result<Receipt, Error>)
      modifies `rows, `log, `nextChange, `collected
      ensures Outcome(View(), r) == Apply(old(View()), ws, Create(cardId, input, stamp, now))
    {
      var frontText := Trim(input.frontText);
      if frontText == "" {
        return Err(EmptyFrontText);
      }
      var tags := DedupeCardTags(input.tags);
      if cardId in rows {
        return Err(IdTaken);
      }
      var row := Row(ws, frontText, Trim(input.backText), TypeOr(input.cardType, "basic"),
                     MetadataOr(input.metadata, DefaultMetadata(stamp.clientUpdatedAt)), tags, NEW_SCHEDULE,
                     stamp.clientUpdatedAt, stamp, now, None);
      var changeId := Insert(cardId, row);
      return Ok(Receipt(row, true, Some(changeId)));
    }

    method UpdateCardInExecutor(ws: nat, cardId: nat, input: UpdateInput, stamp: Stamp, now: int)
      returns (r: Result<Receipt, Error>)
      modifies `rows, `log, `nextChange
      ensures Outcome(View(), r) == Apply(old(View()), ws, Update(cardId, input, stamp, now))
    {
      if input.frontText.Some? && Trim(input.frontText.value) == "" {
        return Err(EmptyFrontText);
      }
      var statement, params := BuildUpdateStatement(Normalized(input), stamp, ws, cardId);
      if statement.None? {
        return Err(NothingToUpdate);
      }
      if cardId !in rows {
        return Err(CardNotFound);
      }
      var row := Execute(statement.value, params, cardId, rows[cardId], now);
      if row.None? {
        return Err(CardNotFound);
      }
      StatementIsTheEdit(rows[cardId], input, stamp, now);
      var changeId := Replace(cardId, row.value);
      return Ok(Receipt(row.value, true, Some(changeId)));
    }

    method DeleteCardInExecutor(ws: nat, cardId: nat, stamp: Stamp, now: int)
      returns (r: Result<Receipt, Error>)
      modifies `rows, `log, `nextChange
      ensures Outcome(View(), r) == Apply(old(View()), ws, Delete(cardId, stamp, now))
    {
      if cardId !in rows || rows[cardId].workspaceId != ws || rows[cardId].deletedAt.Some? {
        return Err(CardNotFound);
      }
      var row := rows[cardId].(deletedAt := Some(stamp.clientUpdatedAt), stamp := stamp, updatedAt := now);
      var changeId := Replace(cardId, row);
      return Ok(Receipt(row, true, Some(changeId)));
    }

    method Commit()
      modifies `facts, `collected
      ensures collected == [] && View() == old(View())
    {
      facts := facts + collected;
      collected := [];
    }

    /** ROLLBACK: rows and change log as they were at BEGIN; the change-id sequence keeps its value. */
    method Rollback(rows0: map<nat, Row>, log0: seq<Change>)
      modifies `rows, `log, `collected
      ensures rows == rows0 && log == log0 && collected == []
    {
      rows, log, collected := rows0, log0, [];
    }

    method UpsertCardSnapshot(ws: nat, cardId: nat, input: Snapshot, stamp: Stamp, now: int)
      returns (r: Result<Receipt, Error>)
      requires collected == []
      modifies this
      ensures collected == []
      ensures Outcome(View(), r) == Apply(old(View()), ws, Upsert(cardId, input, stamp, now))
      ensures cardId in old(rows) && r.Ok? ==> (r.value.applied <==> Later(stamp, old(rows[cardId].stamp)))
    {
      r := UpsertCardSnapshotInExecutor(ws, cardId, input, stamp, now);
      Commit();
    }

    method CreateCards(ws: nat, items: seq<Op>) returns (r: Result<seq<Receipt>, Error>)
      requires collected == [] && AllCreate(items)
      modifies this
      ensures collected == []
      ensures |items| == 0 ==> r == Err(EmptyBatch) && View() == old(View())
      ensures |items| > 100 ==> r == Err(BatchTooLarge) && View() == old(View())
      ensures 1 <= |items| <= 100 ==> Batch(View(), r) == Transact(old(View()), ws, items)
    {
      if |items| < 1 {
        return Err(EmptyBatch);
      }
      if |items| > MAX_CARD_BATCH_SIZE {
        return Err(BatchTooLarge);
      }
      var rows0, log0 := rows, log;
      var createdCards: seq<Receipt> := [];
      for k := 0 to |items|
        invariant Batch(View(), Ok(createdCards)) == ApplyAll(old(View()), ws, items[..k])
        invariant facts == old(facts)
      {
        assert items[..k + 1][..k] == items[..k];
        var card := CreateCardInExecutor(ws, items[k].cardId, items[k].create, items[k].stamp, items[k].now);
        if card.Err? {
          FailureStops(old(View()), ws, items, k);
          Rollback(rows0, log0);
          return Err(card.error);
        }
        createdCards := createdCards + [card.value];
      }
      assert items[..|items|] == items;
      Commit();
      return Ok(createdCards);
    }

    method UpdateCards(ws: nat, items: seq<Op>) returns (r: Result<seq<Receipt>, Error>)
      requires collected == [] && AllUpdate(items)
      modifies this
      ensures collected == []
      ensures |items| == 0 ==> r == Err(EmptyBatch) && View() == old(View())
      ensures |items| > 100 ==> r == Err(BatchTooLarge) && View() == old(View())
      ensures 1 <= |items| <= 100 && !UniqueCardIds(items) ==> r == Err(DuplicateCardIds) && View() == old(View())
      ensures 1 <= |items| <= 100 && UniqueCardIds(items) ==> Batch(View(), r) == Transact(old(View()), ws, items)
    {
      if |items| < 1 {
        return Err(EmptyBatch);
      }
      if |items| > MAX_CARD_BATCH_SIZE {
        return Err(BatchTooLarge);
      }
      var unique := HasUniqueCardIds(items);
      if !unique {
        return Err(DuplicateCardIds);
      }
      var rows0, log0 := rows, log;
      var updatedCards: seq<Receipt> := [];
      for k := 0 to |items|
        invariant Batch(View(), Ok(updatedCards)) == ApplyAll(old(View()), ws, items[..k])
        invariant facts == old(facts) && collected == []
      {
        assert items[..k + 1][..k] == items[..k];
        var card := UpdateCardInExecutor(ws, items[k].cardId, items[k].update, items[k].stamp, items[k].now);
        if card.Err? {
          FailureStops(old(View()), ws, items, k);
          Rollback(rows0, log0);
          return Err(card.error);
        }
        updatedCards := updatedCards + [card.value];
      }
      assert items[..|items|] == items;
      return Ok(updatedCards);
    }

    method DeleteCards(ws: nat, items: seq<Op>) returns (r: Result<seq<Receipt>, Error>)
      requires collected == [] && AllDelete(items)
      modifies this
      ensures collected == []
      ensures |items| == 0 ==> r == Err(EmptyBatch) && View() == old(View())
      ensures |items| > 100 ==> r == Err(BatchTooLarge) && View() == old(View())
      ensures 1 <= |items| <= 100 && !UniqueCardIds(items) ==> r == Err(DuplicateCardIds) && View() == old(View())
      ensures 1 <= |items| <= 100 && UniqueCardIds(items) ==> Batch(View(), r) == Transact(old(View()), ws, items)
    {
      if |items| < 1 {
        return Err(EmptyBatch);
      }
      if |items| > MAX_CARD_BATCH_SIZE {
        return Err(BatchTooLarge);
      }
      var unique := HasUniqueCardIds(items);
      if !unique {
        return Err(DuplicateCardIds);
      }
      var rows0, log0 := rows, log;
      var deletedCards: seq<Receipt> := [];
      for k := 0 to |items|
        invariant Batch(View(), Ok(deletedCards)) == ApplyAll(old(View()), ws, items[..k])
        invariant facts == old(facts) && collected == []
      {
        assert items[..k + 1][..k] == items[..k];
        var card := DeleteCardInExecutor(ws, items[k].cardId, items[k].stamp, items[k].now);
        if card.Err? {
          FailureStops(old(View()), ws, items, k);
          Rollback(rows0, log0);
          return Err(card.error);
        }
        deletedCards := deletedCards + [card.value];
      }
      assert items[..|items|] == items;
      return Ok(deletedCards);
    }
  }

  /** Once a mutation fails the later ones are not run. */
  lemma {:induction false} FailureStops(s: State, ws: nat, ops: seq<Op>, k: nat)
    requires k < |ops| && ApplyAll(s, ws, ops[..k + 1]).result.Err?
    ensures ApplyAll(s, ws, ops) == ApplyAll(s, ws, ops[..k + 1])
  {
    if k + 1 < |ops| {
      assert ops[..|ops| - 1][..k + 1] == ops[..k + 1];
      FailureStops(s, ws, ops[..|ops| - 1], k);
    } else {
      assert ops[..k + 1] == ops;
    }
  }
}
