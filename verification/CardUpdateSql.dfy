/** The UPDATE statement generated for a partial card edit: its SET list, its placeholders and its effect. */
module CardUpdateSql {
  import opened Text
  import opened Bytes
  import opened Lww
  import opened CardModel

  datatype Column = FrontText | BackText | CardType | MetadataColumn | Tags

  datatype Param = Str(s: string) | Json(m: Metadata) | StrArray(tags: seq<string>) | Time(ms: int) | Bytes(b: seq<byte>) | Id(n: nat)

  /** `column = $param` */
  datatype Assignment = Assignment(column: Column, param: nat)

  /** SET assignments, client_updated_at, last_modified_by_replica_id, last_operation_id, updated_at = now()
      WHERE workspace_id AND card_id AND deleted_at IS NULL; the numbers are placeholders. */
  datatype UpdateStatement = UpdateStatement(
    assignments: seq<Assignment>,
    clientUpdatedAt: nat,
    replicaId: nat,
    operationId: nat,
    workspaceId: nat,
    cardId: nat)

  function Arg(params: seq<Param>, k: nat): Param {
    if 1 <= k <= |params| then params[k - 1] else Id(0)
  }

  function SetColumn(row: Row, column: Column, p: Param): Row {
    match (column, p)
    case (FrontText, Str(s)) => row.(frontText := s)
    case (BackText, Str(s)) => row.(backText := s)
    case (CardType, Str(s)) => row.(cardType := s)
    case (MetadataColumn, Json(m)) => row.(metadata := m)
    case (Tags, StrArray(tags)) => row.(tags := tags)
    case _ => row
  }

  function AssignAll(row: Row, assignments: seq<Assignment>, params: seq<Param>): Row {
    if assignments == [] then row
    else
      var last := assignments[|assignments| - 1];
      SetColumn(AssignAll(row, assignments[..|assignments| - 1], params), last.column, Arg(params, last.param))
  }

  /** The row after the statement, None if the WHERE clause does not select it. */
  function Execute(st: UpdateStatement, params: seq<Param>, cardId: nat, row: Row, now: int): Option<Row> {
    if Arg(params, st.workspaceId) == Id(row.workspaceId) && Arg(params, st.cardId) == Id(cardId)
       && row.deletedAt.None? && Arg(params, st.clientUpdatedAt).Time?
       && Arg(params, st.replicaId).Bytes? && Arg(params, st.operationId).Bytes?
    then
      Some(AssignAll(row, st.assignments, params).(
             stamp := Stamp(Arg(params, st.clientUpdatedAt).ms, Arg(params, st.replicaId).b, Arg(params, st.operationId).b),
             updatedAt := now))
    else None
  }

  /** The normalised input, column by column. */
  function Normalized(x: UpdateInput): UpdateInput {
    UpdateInput(
      if x.frontText.Some? then Some(Trim(x.frontText.value)) else None,
      if x.backText.Some? then Some(Trim(x.backText.value)) else None,
      if x.cardType.Some? then Some(NormalizeType(x.cardType.value)) else None,
      x.metadata,
      if x.tags.Some? then Some(Dedupe(x.tags.value)) else None)
  }

  ghost predicate Numbered(assignments: seq<Assignment>, params: seq<Param>) {
    |assignments| == |params| && forall k | 0 <= k < |assignments| :: assignments[k].param == k + 1
  }

  /** The row with the supplied columns of `x` replaced, up to and including the `upTo`-th. */
  function Replaced(row: Row, x: UpdateInput, upTo: nat): Row {
    row.(frontText := if upTo > 0 && x.frontText.Some? then x.frontText.value else row.frontText,
         backText := if upTo > 1 && x.backText.Some? then x.backText.value else row.backText,
         cardType := if upTo > 2 && x.cardType.Some? then x.cardType.value else row.cardType,
         metadata := if upTo > 3 && x.metadata.Some? then x.metadata.value else row.metadata,
         tags := if upTo > 4 && x.tags.Some? then x.tags.value else row.tags)
  }

  /** Running the assignments, whatever parameters come after theirs, replaces those columns and no others. */
  ghost predicate Realizes(assignments: seq<Assignment>, params: seq<Param>, x: UpdateInput, upTo: nat) {
    && Numbered(assignments, params)
    && forall row, more: seq<Param> {:trigger AssignAll(row, assignments, params + more)} ::
         AssignAll(row, assignments, params + more) == Replaced(row, x, upTo)
  }

  lemma AppendAssignment(assignments: seq<Assignment>, params: seq<Param>, x: UpdateInput, n: nat, c: Column, p: Param)
    requires Realizes(assignments, params, x, n)
    requires forall row :: SetColumn(Replaced(row, x, n), c, p) == Replaced(row, x, n + 1)
    ensures Realizes(assignments + [Assignment(c, |assignments| + 1)], params + [p], x, n + 1)
  {
    hide Replaced, SetColumn;
    var assignments', params' := assignments + [Assignment(c, |assignments| + 1)], params + [p];
    forall row, more: seq<Param>
      ensures AssignAll(row, assignments', params' + more) == Replaced(row, x, n + 1)
    {
      assert params' + more == params + ([p] + more);
      assert assignments'[..|assignments|] == assignments;
      assert AssignAll(row, assignments, params + ([p] + more)) == Replaced(row, x, n);
      assert Arg(params' + more, |assignments| + 1) == p;
    }
  }

  method BuildCardUpdateQueryParts(input: UpdateInput) returns (assignments: seq<Assignment>, params: seq<Param>)
    ensures Realizes(assignments, params, input, 5)
    ensures assignments == [] <==> NothingSupplied(input)
  {
    hide Realizes;
    assignments, params := [], [];
    NothingYet(input);
    if input.frontText.Some? {
      AppendAssignment(assignments, params, input, 0, FrontText, Str(input.frontText.value));
      assignments := assignments + [Assignment(FrontText, |assignments| + 1)];
      params := params + [Str(input.frontText.value)];
    } else {
      SkipColumn(assignments, params, input, 0);
    }
    if input.backText.Some? {
      AppendAssignment(assignments, params, input, 1, BackText, Str(input.backText.value));
      assignments := assignments + [Assignment(BackText, |assignments| + 1)];
      params := params + [Str(input.backText.value)];
    } else {
      SkipColumn(assignments, params, input, 1);
    }
    if input.cardType.Some? {
      AppendAssignment(assignments, params, input, 2, CardType, Str(input.cardType.value));
      assignments := assignments + [Assignment(CardType, |assignments| + 1)];
      params := params + [Str(input.cardType.value)];
    } else {
      SkipColumn(assignments, params, input, 2);
    }
    if input.metadata.Some? {
      AppendAssignment(assignments, params, input, 3, MetadataColumn, Json(input.metadata.value));
      assignments := assignments + [Assignment(MetadataColumn, |assignments| + 1)];
      params := params + [Json(input.metadata.value)];
    } else {
      SkipColumn(assignments, params, input, 3);
    }
    if input.tags.Some? {
      AppendAssignment(assignments, params, input, 4, Tags, StrArray(input.tags.value));
      assignments := assignments + [Assignment(Tags, |assignments| + 1)];
      params := params + [StrArray(input.tags.value)];
    } else {
      SkipColumn(assignments, params, input, 4);
    }
  }

  lemma NothingYet(x: UpdateInput)
    ensures Realizes([], [], x, 0)
  {
  }

  lemma SkipColumn(assignments: seq<Assignment>, params: seq<Param>, x: UpdateInput, n: nat)
    requires Realizes(assignments, params, x, n)
    requires forall row :: Replaced(row, x, n) == Replaced(row, x, n + 1)
    ensures Realizes(assignments, params, x, n + 1)
  {
    hide Replaced;
  }

  /** The whole statement around the generated SET list; the last five placeholders are counted from the end. */
  method BuildUpdateStatement(input: UpdateInput, stamp: Stamp, workspaceId: nat, cardId: nat)
    returns (r: Option<UpdateStatement>, params: seq<Param>)
    ensures r.None? <==> NothingSupplied(input)
    ensures r.Some? ==>
              (forall k | 0 <= k < |r.value.assignments| :: r.value.assignments[k].param == k + 1)
              && |params| == |r.value.assignments| + 5
              && (forall id, row, now :: Execute(r.value, params, id, row, now) ==
                    if row.workspaceId == workspaceId && id == cardId && row.deletedAt.None?
                    then Some(Replaced(row, input, 5).(stamp := stamp, updatedAt := now))
                    else None)
  {
    var assignments, updateParams := BuildCardUpdateQueryParts(input);
    if |assignments| == 0 {
      return None, updateParams;
    }
    var tail := [Time(stamp.clientUpdatedAt), Bytes(stamp.replicaId), Bytes(stamp.operationId), Id(workspaceId), Id(cardId)];
    params := updateParams + tail;
    var n := |params|;
    r := Some(UpdateStatement(assignments, n - 4, n - 3, n - 2, n - 1, n));
    assert params[n - 5] == tail[0] && params[n - 4] == tail[1] && params[n - 3] == tail[2];
    assert params[n - 2] == tail[3] && params[n - 1] == tail[4];
    forall row ensures AssignAll(row, assignments, params) == Replaced(row, input, 5) {
      assert AssignAll(row, assignments, updateParams + tail) == Replaced(row, input, 5);
    }
  }

  /** Executing the statement generated for the normalised input is the specified edit. */
  lemma StatementIsTheEdit(row: Row, x: UpdateInput, stamp: Stamp, now: int)
    ensures Replaced(row, Normalized(x), 5).(stamp := stamp, updatedAt := now) == UpdatedRow(row, x, stamp, now)
  {
  }
}
