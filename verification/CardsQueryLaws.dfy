/** What the generated statements mean, and that walking the pages is exact. */
module CardsQueryLaws {
  import opened Text
  import opened CardsSql
  import opened CardsQuery

  /** The request in plain words: a live card of the workspace, sharing a tag with the filter,
      with every search token in its text or in one of its tags. */
  ghost predicate Matches(e: Engine, q: Query, row: Row) {
    && row.workspaceId == q.workspaceId
    && row.deletedAt.None?
    && (q.tags.Some? && q.tags.value != [] ==> Overlap(row.tags, q.tags.value))
    && (q.tokens.Some? ==> forall k | 0 <= k < |q.tokens.value| :: TokenFound(e, q.tokens.value[k], row))
  }

  ghost predicate TokenFound(e: Engine, token: string, row: Row) {
    || e.like(e.lower(row.frontText + " " + row.backText), "%" + token + "%")
    || AnyTagLike(e, row.tags, "%" + token + "%")
  }

  lemma TokenClauseMeans(e: Engine, token: string, k: nat, params: seq<Value>, row: Row)
    requires Arg(params, k) == Str("%" + token + "%")
    ensures Holds(e, AnyOf([FrontBackLike(k), SomeTagLike(k)]), params, row) <==> TokenFound(e, token, row)
  {
    var parts := [FrontBackLike(k), SomeTagLike(k)];
    AnyHolds(e, parts, params, row);
    assert Holds(e, parts[0], params, row) <==> e.like(e.lower(row.frontText + " " + row.backText), "%" + token + "%");
    assert Holds(e, parts[1], params, row) <==> AnyTagLike(e, row.tags, "%" + token + "%");
  }

  lemma SearchClauseMeans(e: Engine, tokens: seq<string>, start: nat, params: seq<Value>, row: Row)
    requires forall k | 0 <= k < |tokens| :: Arg(params, start + k + 1) == Str("%" + tokens[k] + "%")
    ensures Holds(e, AllOf(TokenClauses(tokens, start)), params, row) <==>
            forall k | 0 <= k < |tokens| :: TokenFound(e, tokens[k], row)
  {
    hide TokenFound;
    var clauses := TokenClauses(tokens, start);
    AllHolds(e, clauses, params, row);
    forall k | 0 <= k < |tokens|
      ensures Holds(e, clauses[k], params, row) <==> TokenFound(e, tokens[k], row)
    {
      TokenClauseMeans(e, tokens[k], start + k + 1, params, row);
    }
  }

  /** The optional search clause of a query, behind whatever parameters come before its own. */
  lemma SearchPartMeans(e: Engine, tokens: seq<string>, before: seq<Value>, params: seq<Value>, row: Row)
    requires before + TokenParams(tokens) <= params
    ensures Holds(e, AllOf(TokenClauses(tokens, |before|)), params, row) <==>
            forall k | 0 <= k < |tokens| :: TokenFound(e, tokens[k], row)
  {
    hide TokenFound, Holds;
    forall k | 0 <= k < |tokens| ensures Arg(params, |before| + k + 1) == Str("%" + tokens[k] + "%") {
      assert params[|before| + k] == (before + TokenParams(tokens))[|before| + k] == TokenParams(tokens)[k];
    }
    SearchClauseMeans(e, tokens, |before|, params, row);
  }

  lemma FilterPartMeans(e: Engine, tags: seq<string>, params: seq<Value>, row: Row)
    requires |params| >= 2 && params[1] == StrArray(tags)
    ensures Holds(e, TagsOverlap(2), params, row) <==> Overlap(row.tags, tags)
  {
  }

  lemma BaseMeans(e: Engine, q: Query, params: seq<Value>, row: Row)
    requires params != [] && params[0] == Uuid(q.workspaceId)
    ensures Holds(e, InWorkspace(1), params, row) <==> row.workspaceId == q.workspaceId
    ensures Holds(e, NotDeleted, params, row) <==> row.deletedAt.None?
  {
  }

  /** The generated WHERE, with its placeholders bound to the generated parameters, is exactly the request. */
  lemma WhereMeans(e: Engine, q: Query, params: seq<Value>, row: Row)
    requires WhereParams(q) <= params
    ensures Holds(e, Where(q), params, row) <==> Matches(e, q, row)
  {
    hide TokenFound, Overlap, TokenClauses, TokenParams, Eval;
    var filter := FilterPart(q.tags, 1);
    var search := SearchPart(q.tokens, 1 + |filter.params|);
    var parts := [InWorkspace(1), NotDeleted] + Listed(filter.clause) + Listed(search.clause);
    assert params[0] == Uuid(q.workspaceId);
    WherePartsHold(e, parts, params, row);
    BaseMeans(e, q, params, row);
    assert parts[0] == InWorkspace(1) && parts[1] == NotDeleted;
    if filter.clause.Some? {
      assert params[1] == WhereParams(q)[1] == StrArray(q.tags.value);
      FilterPartMeans(e, q.tags.value, params, row);
      assert parts[2] == filter.clause.value;
    }
    if q.tokens.Some? {
      SearchPartMeans(e, q.tokens.value, [Uuid(q.workspaceId)] + filter.params, params, row);
      assert parts[|parts| - 1] == search.clause.value;
    }
  }

  lemma WherePartsHold(e: Engine, parts: seq<Clause>, params: seq<Value>, row: Row)
    ensures Holds(e, AllOf(parts), params, row) <==> forall k | 0 <= k < |parts| :: Holds(e, parts[k], params, row)
  {
    AllHolds(e, parts, params, row);
  }

  function WholeMilliseconds(us: int): int { us - us % 1000 }

  /** The row a cursor describes: its timestamps cut down to whole milliseconds. */
  function Floored(r: Row): Row {
    r.(createdAt := WholeMilliseconds(r.createdAt),
       dueAt := if r.dueAt.Some? then Some(WholeMilliseconds(r.dueAt.value)) else None)
  }

  /** The timestamps the row is sorted by are whole milliseconds. */
  predicate PreciseFor(sorts: seq<Sort>, r: Row) {
    forall k | 0 <= k < |sorts| ::
      && (sorts[k].key == CreatedAt ==> r.createdAt % 1000 == 0)
      && (sorts[k].key == DueAt && r.dueAt.Some? ==> r.dueAt.value % 1000 == 0)
  }

  lemma CursorDescribesFloored(e: Engine, sorts: seq<Sort>, r: Row)
    ensures CursorOf(e, sorts, r) == seq(|sorts|, k requires 0 <= k < |sorts| => Column(e, Floored(r), sorts[k].key))
    ensures PreciseFor(sorts, r) <==>
            forall k | 0 <= k < |sorts| :: Column(e, Floored(r), sorts[k].key) == Column(e, r, sorts[k].key)
  {
    forall k | 0 <= k < |sorts|
      ensures ToCursorValue(Column(e, r, sorts[k].key)) == Column(e, Floored(r), sorts[k].key)
      ensures (sorts[k].key == CreatedAt ==> r.createdAt % 1000 == 0)
              && (sorts[k].key == DueAt && r.dueAt.Some? ==> r.dueAt.value % 1000 == 0) <==>
              Column(e, Floored(r), sorts[k].key) == Column(e, r, sorts[k].key)
    {
    }
  }

  lemma ComparisonMeans(e: Engine, sort: Sort, k: nat, params: seq<Value>, r: Row, s: Row)
    requires Arg(params, k) == Column(e, r, sort.key)
    ensures Holds(e, CursorComparison(sort, k, Column(e, r, sort.key)), params, s) <==>
            Precedes(e, OrderItemOf(sort), Column(e, r, sort.key), Column(e, s, sort.key))
  {
    var parts := [Below(sort.key, k), IsNull(sort.key)];
    AnyHolds(e, parts, params, s);
    assert Holds(e, parts[0], params, s) == (Less(e, Column(e, s, sort.key), Column(e, r, sort.key)) == True);
    assert Holds(e, parts[1], params, s) == (Column(e, s, sort.key) == Null);
  }

  lemma NotDistinctMeans(e: Engine, key: Key, k: nat, params: seq<Value>, s: Row)
    ensures Holds(e, NotDistinct(key, k), params, s) <==> Column(e, s, key) == Arg(params, k)
  {
  }

  lemma GroupMeans(e: Engine, sorts: seq<Sort>, start: nat, i: nat, params: seq<Value>, r: Row, s: Row)
    requires i < |sorts|
    requires start + |sorts| <= |params| && params[start..start + |sorts|] == CursorOf(e, sorts, r)
    ensures Holds(e, CursorGroup(sorts, CursorOf(e, sorts, r), start, i), params, s) <==>
            DecidesAt(e, OrderBy(sorts), Floored(r), s, i)
  {
    hide Precedes, CursorComparison, Column, Floored, Eval;
    var cursor, f := CursorOf(e, sorts, r), Floored(r);
    var parts := Equalities(sorts[..i], start) + [CursorComparison(sorts[i], start + i + 1, cursor[i])];
    WherePartsHold(e, parts, params, s);
    CursorDescribesFloored(e, sorts, r);
    forall j | 0 <= j <= i
      ensures Arg(params, start + j + 1) == cursor[j] == Column(e, f, sorts[j].key)
    {
      assert params[start + j] == params[start..start + |sorts|][j];
    }
    forall j | 0 <= j < i
      ensures parts[j] == NotDistinct(sorts[j].key, start + j + 1)
      ensures Holds(e, parts[j], params, s) <==> Column(e, s, sorts[j].key) == Column(e, f, sorts[j].key)
    {
      NotDistinctMeans(e, sorts[j].key, start + j + 1, params, s);
    }
    ComparisonMeans(e, sorts[i], start + i + 1, params, f, s);
    assert parts[i] == CursorComparison(sorts[i], start + i + 1, cursor[i]);
  }

  /** The keyset theorem: for a cursor made from row r, the generated clause, with its placeholders bound,
      is TRUE of exactly the rows strictly after r, cut down to whole milliseconds, in the generated ORDER BY. */
  lemma CursorSelectsStrictlyAfter(e: Engine, sorts: seq<Sort>, start: nat, params: seq<Value>, r: Row, s: Row)
    requires start + |sorts| <= |params| && params[start..start + |sorts|] == CursorOf(e, sorts, r)
    ensures var part := CursorPart(sorts, Some(CursorOf(e, sorts, r)), start);
            && part.Ok? && part.value.clause.Some? && part.value.params == CursorOf(e, sorts, r)
            && (Holds(e, part.value.clause.value, params, s) <==> Earlier(e, OrderBy(sorts), Floored(r), s))
  {
    hide Precedes, DecidesAt;
    var cursor := CursorOf(e, sorts, r);
    var groups := CursorGroups(sorts, cursor, start);
    AnyHolds(e, groups, params, s);
    EarlierAtSomePosition(e, OrderBy(sorts), Floored(r), s);
    forall i | 0 <= i < |sorts|
      ensures Holds(e, groups[i], params, s) <==> DecidesAt(e, OrderBy(sorts), Floored(r), s, i)
    {
      GroupMeans(e, sorts, start, i, params, r, s);
    }
  }

  lemma {:induction false} SameColumnsSameOrder(e: Engine, items: seq<OrderItem>, f: Row, r: Row, s: Row)
    requires forall k | 0 <= k < |items| :: Column(e, f, items[k].key) == Column(e, r, items[k].key)
    ensures Earlier(e, items, f, s) <==> Earlier(e, items, r, s)
  {
    if items != [] {
      hide Precedes, Column;
      SameColumnsSameOrder(e, items[1..], f, r, s);
    }
  }

  /** The clause means strictly after the cursor's own row exactly when the timestamps that row is sorted by are
      whole milliseconds; otherwise it selects the row again or skips a row just behind it. */
  lemma CursorIsExactWhenPrecise(e: Engine, sorts: seq<Sort>, start: nat, params: seq<Value>, r: Row)
    requires Lawful(e)
    requires start + |sorts| <= |params| && params[start..start + |sorts|] == CursorOf(e, sorts, r)
    ensures (forall s :: Holds(e, CursorPart(sorts, Some(CursorOf(e, sorts, r)), start).value.clause.value, params, s) <==>
                         Earlier(e, OrderBy(sorts), r, s))
            <==> PreciseFor(sorts, r)
  {
    hide Earlier, Holds, Column, PreciseFor, Floored;
    var order, f := OrderBy(sorts), Floored(r);
    CursorDescribesFloored(e, sorts, r);
    forall s ensures Holds(e, CursorPart(sorts, Some(CursorOf(e, sorts, r)), start).value.clause.value, params, s) <==>
                     Earlier(e, order, f, s)
    {
      CursorSelectsStrictlyAfter(e, sorts, start, params, r, s);
    }
    if PreciseFor(sorts, r) {
      forall s ensures Earlier(e, order, f, s) <==> Earlier(e, order, r, s) {
        SameColumnsSameOrder(e, order, f, r, s);
      }
    } else {
      var k :| 0 <= k < |sorts| && Column(e, f, sorts[k].key) != Column(e, r, sorts[k].key);
      EarlierIsTotal(e, order, f, r, k);
      EarlierIsStrict(e, order, f, r, f);
      EarlierIsStrict(e, order, r, f, r);
    }
  }

  /** The generated order is a strict total order on cards. */
  lemma OrderIsStrictTotal(e: Engine, sorts: seq<Sort>, r: Row, s: Row, t: Row)
    requires Lawful(e)
    ensures var order := OrderBy(EffectiveSorts(sorts));
            && !Earlier(e, order, r, r)
            && (Earlier(e, order, r, s) && Earlier(e, order, s, t) ==> Earlier(e, order, r, t))
            && (r.cardId != s.cardId ==> Earlier(e, order, r, s) || Earlier(e, order, s, r))
  {
    var order := OrderBy(EffectiveSorts(sorts));
    EarlierIsStrict(e, order, r, s, t);
    assert order[|order| - 1].key == CardId;
    if r.cardId != s.cardId {
      EarlierIsTotal(e, order, r, s, |order| - 1);
    }
  }

  /** No parameter is left over and no placeholder is unbound: the statement mentions exactly $1 .. $n. */
  lemma EveryPlaceholderIsBoundAndUsed(q: Query, cursor: Cursor, k: nat)
    requires Compile(q, cursor).Ok?
    ensures var s := Compile(q, cursor).value;
            1 <= k <= |s.params| <==>
            k in Placeholders(s.where) + (if s.cursor.None? then {} else Placeholders(s.cursor.value)) + {s.limitParam}
  {
    WherePlaceholders(q, k);
    if cursor.Some? {
      CursorPlaceholders(EffectiveSorts(q.sorts), cursor.value, |WhereParams(q)|, k);
    }
  }

  lemma WherePlaceholders(q: Query, k: nat)
    ensures k in Placeholders(Where(q)) <==> 1 <= k <= |WhereParams(q)|
  {
    hide Placeholders;
    var filter := FilterPart(q.tags, 1);
    var search := SearchPart(q.tokens, 1 + |filter.params|);
    var parts := [InWorkspace(1), NotDeleted] + Listed(filter.clause) + Listed(search.clause);
    PartPlaceholders(parts, k);
    assert parts[0] == InWorkspace(1) && parts[1] == NotDeleted;
    LeafPlaceholders(1, k);
    if filter.clause.Some? {
      LeafPlaceholders(2, k);
      assert parts[2] == TagsOverlap(2);
    }
    if q.tokens.Some? {
      TokenPlaceholders(q.tokens.value, 1 + |filter.params|, k);
      assert parts[|parts| - 1] == search.clause.value;
    }
  }

  lemma PartPlaceholders(parts: seq<Clause>, k: nat)
    ensures k in Placeholders(AllOf(parts)) <==> exists i | 0 <= i < |parts| :: k in Placeholders(parts[i])
  {
    PlaceholdersOfPart(parts, k);
  }

  lemma LeafPlaceholders(param: nat, k: nat)
    ensures k in Placeholders(InWorkspace(param)) <==> k == param
    ensures k in Placeholders(TagsOverlap(param)) <==> k == param
    ensures k !in Placeholders(NotDeleted)
  {
  }

  lemma TokenPlaceholders(tokens: seq<string>, start: nat, k: nat)
    ensures k in Placeholders(AllOf(TokenClauses(tokens, start))) <==> start < k <= start + |tokens|
  {
    var clauses := TokenClauses(tokens, start);
    PlaceholdersOfPart(clauses, k);
    forall i | 0 <= i < |tokens|
      ensures k in Placeholders(clauses[i]) <==> k == start + i + 1
    {
      var parts := [FrontBackLike(start + i + 1), SomeTagLike(start + i + 1)];
      PlaceholdersOfPart(parts, k);
      assert k in Placeholders(parts[0]) <==> k == start + i + 1;
      assert k in Placeholders(parts[1]) <==> k == start + i + 1;
    }
    if start < k <= start + |tokens| {
      assert k in Placeholders(clauses[k - start - 1]);
    }
  }

  /** A NULL cursor value makes a comparison drop its placeholder; the next group still mentions it,
      and the last key, the card id, is never NULL. */
  lemma CursorPlaceholders(sorts: seq<Sort>, values: seq<Value>, start: nat, k: nat)
    requires |sorts| == |values| > 0 && !Nullable(sorts[|sorts| - 1].key)
    ensures k in Placeholders(AnyOf(CursorGroups(sorts, values, start))) <==> start < k <= start + |sorts|
  {
    var groups := CursorGroups(sorts, values, start);
    PlaceholdersOfPart(groups, k);
    forall i | 0 <= i < |sorts|
      ensures k in Placeholders(groups[i]) ==> start < k <= start + i + 1
      ensures start < k <= start + i ==> k in Placeholders(groups[i])
      ensures i == |sorts| - 1 && k == start + i + 1 ==> k in Placeholders(groups[i])
    {
      GroupPlaceholders(sorts, values, start, i, k);
    }
    if start < k <= start + |sorts| {
      assert k in Placeholders(groups[|sorts| - 1]);
    }
  }

  lemma EqualityPlaceholders(key: Key, n: nat)
    ensures Placeholders(NotDistinct(key, n)) == {n}
  {
  }

  lemma ComparisonPlaceholders(sort: Sort, n: nat, value: Value, k: nat)
    ensures k in Placeholders(CursorComparison(sort, n, value)) ==> k == n
    ensures !Nullable(sort.key) ==> n in Placeholders(CursorComparison(sort, n, value))
  {
    PlaceholdersOfPart([Below(sort.key, n), IsNull(sort.key)], k);
  }

  lemma GroupPlaceholders(sorts: seq<Sort>, values: seq<Value>, start: nat, i: nat, k: nat)
    requires i < |sorts| == |values|
    ensures var group := CursorGroup(sorts, values, start, i);
            && (k in Placeholders(group) ==> start < k <= start + i + 1)
            && (start < k <= start + i ==> k in Placeholders(group))
            && (!Nullable(sorts[i].key) && k == start + i + 1 ==> k in Placeholders(group))
  {
    hide CursorComparison, Placeholders;
    var comparison := CursorComparison(sorts[i], start + i + 1, values[i]);
    var parts := Equalities(sorts[..i], start) + [comparison];
    PartPlaceholders(parts, k);
    ComparisonPlaceholders(sorts[i], start + i + 1, values[i], k);
    forall j | 0 <= j < i ensures parts[j] == NotDistinct(sorts[j].key, start + j + 1) {
    }
    forall key, n { EqualityPlaceholders(key, n); }
    assert parts[i] == comparison;
    if start < k <= start + i {
      assert k in Placeholders(parts[k - start - 1]);
    }
  }
}
