/** Building one page of the cards query: sort normalisation, the WHERE and ORDER BY clauses, the keyset cursor. */
module CardsQuery {
  import opened Text
  import opened CardsSql

  datatype Sort = Sort(key: Key, direction: Direction)

  datatype QueryError = TooManySorts | DuplicateSortKey(key: Key) | CursorMismatch | EmptySearch | BadLimit

  type Cursor = Option<seq<Value>>

  /** A card query. `sorts` never names the internal CardId key; `tags` is the normalised tag filter and
      `tokens` the tokenised search text, None where the request carries neither. */
  datatype Query = Query(
    workspaceId: nat,
    tags: Option<seq<string>>,
    tokens: Option<seq<string>>,
    sorts: seq<Sort>,
    limit: int)

  datatype Page = Page(cards: seq<Row>, nextCursor: Cursor, totalCount: nat)

  const MAXIMUM_SORT_COUNT := 3
  const MAXIMUM_PAGE_SIZE := 100

  predicate DistinctKeys(sorts: seq<Sort>) {
    forall i, j | 0 <= i < j < |sorts| :: sorts[i].key != sorts[j].key
  }

  method NormalizeCardsQuerySorts(sorts: seq<Sort>) returns (r: Result<seq<Sort>, QueryError>)
    ensures r.Ok? <==> |sorts| <= 3 && DistinctKeys(sorts)
    ensures r.Ok? ==> r.value == sorts
    ensures |sorts| > 3 ==> r == Err(TooManySorts)
    ensures r.Err? && |sorts| <= 3 ==>
              exists i, j :: 0 <= i < j < |sorts| && sorts[i].key == sorts[j].key && r.error == DuplicateSortKey(sorts[j].key)
  {
    if |sorts| > MAXIMUM_SORT_COUNT {
      return Err(TooManySorts);
    }
    var uniqueKeys: set<Key> := {};
    for n := 0 to |sorts|
      invariant uniqueKeys == set i | 0 <= i < n :: sorts[i].key
      invariant DistinctKeys(sorts[..n])
    {
      if sorts[n].key in uniqueKeys {
        return Err(DuplicateSortKey(sorts[n].key));
      }
      uniqueKeys := uniqueKeys + {sorts[n].key};
      assert sorts[..n + 1] == sorts[..n] + [sorts[n]];
    }
    assert sorts[..|sorts|] == sorts;
    return Ok(sorts);
  }

  predicate MentionsCreatedAt(sorts: seq<Sort>) {
    exists i | 0 <= i < |sorts| :: sorts[i].key == CreatedAt
  }

  function EffectiveSorts(sorts: seq<Sort>): (r: seq<Sort>)
    ensures |r| > 0 && r[|r| - 1] == Sort(CardId, Asc)
  {
    sorts + (if MentionsCreatedAt(sorts) then [] else [Sort(CreatedAt, Desc)]) + [Sort(CardId, Asc)]
  }

  /** The order the caller asked for comes first, is broken by the creation time, and ends with the one key no two
      cards share; no key is ordered by twice. */
  method BuildEffectiveCardsQuerySorts(sorts: seq<Sort>) returns (effectiveSorts: seq<Sort>)
    ensures sorts < effectiveSorts && effectiveSorts[|effectiveSorts| - 1] == Sort(CardId, Asc)
    ensures MentionsCreatedAt(effectiveSorts)
    ensures MentionsCreatedAt(sorts) ==> |effectiveSorts| == |sorts| + 1
    ensures !MentionsCreatedAt(sorts) ==> |effectiveSorts| == |sorts| + 2 && effectiveSorts[|sorts|] == Sort(CreatedAt, Desc)
    ensures DistinctKeys(sorts) && (forall i | 0 <= i < |sorts| :: sorts[i].key != CardId) ==> DistinctKeys(effectiveSorts)
    ensures effectiveSorts == EffectiveSorts(sorts)
  {
    effectiveSorts := sorts;
    if !(exists i | 0 <= i < |sorts| :: sorts[i].key == CreatedAt) {
      effectiveSorts := effectiveSorts + [Sort(CreatedAt, Desc)];
    }
    effectiveSorts := effectiveSorts + [Sort(CardId, Asc)];
    if MentionsCreatedAt(sorts) {
      var i :| 0 <= i < |sorts| && sorts[i].key == CreatedAt;
      assert effectiveSorts[i] == sorts[i];
    } else {
      assert effectiveSorts[|sorts|].key == CreatedAt;
    }
  }

  function OrderItemOf(sort: Sort): OrderItem {
    OrderItem(sort.key, sort.direction,
              if sort.key != DueAt then Unstated else if sort.direction.Asc? then First else Last)
  }

  function OrderBy(sorts: seq<Sort>): (items: seq<OrderItem>)
    ensures |items| == |sorts| && forall k | 0 <= k < |sorts| :: items[k] == OrderItemOf(sorts[k])
  {
    seq(|sorts|, k requires 0 <= k < |sorts| => OrderItemOf(sorts[k]))
  }

  predicate Nullable(key: Key) { key == DueAt }

  function CursorComparison(sort: Sort, paramIndex: nat, cursorValue: Value): Clause {
    if !Nullable(sort.key) then
      if sort.direction.Asc? then Above(sort.key, paramIndex) else Below(sort.key, paramIndex)
    else if sort.direction.Asc? then
      if cursorValue == Null then IsNotNull(sort.key) else Above(sort.key, paramIndex)
    else if cursorValue == Null then Never
    else AnyOf([Below(sort.key, paramIndex), IsNull(sort.key)])
  }

  function Equalities(sorts: seq<Sort>, start: nat): (r: seq<Clause>)
    ensures |r| == |sorts|
  {
    seq(|sorts|, j requires 0 <= j < |sorts| => NotDistinct(sorts[j].key, start + j + 1))
  }

  function CursorGroup(sorts: seq<Sort>, cursor: seq<Value>, start: nat, i: nat): Clause
    requires i < |sorts| == |cursor|
  {
    AllOf(Equalities(sorts[..i], start) + [CursorComparison(sorts[i], start + i + 1, cursor[i])])
  }

  function CursorGroups(sorts: seq<Sort>, cursor: seq<Value>, start: nat): (r: seq<Clause>)
    requires |sorts| == |cursor|
    ensures |r| == |sorts| && forall i | 0 <= i < |sorts| :: r[i] == CursorGroup(sorts, cursor, start, i)
  {
    seq(|sorts|, i requires 0 <= i < |sorts| => CursorGroup(sorts, cursor, start, i))
  }

  /** A generated clause, None when nothing is to be said, with the parameters it appends. */
  datatype Part = Part(clause: Option<Clause>, params: seq<Value>)

  function CursorPart(sorts: seq<Sort>, cursor: Cursor, start: nat): Result<Part, QueryError> {
    match cursor
    case None => Ok(Part(None, []))
    case Some(values) =>
      if |values| != |sorts| then Err(CursorMismatch)
      else Ok(Part(Some(AnyOf(CursorGroups(sorts, values, start))), values))
  }

  method BuildCardsQueryCursorWhereClause(effectiveSorts: seq<Sort>, cursor: Cursor, startIndex: nat)
    returns (r: Result<Part, QueryError>)
    ensures r == CursorPart(effectiveSorts, cursor, startIndex)
  {
    if cursor.None? {
      return Ok(Part(None, []));
    }
    if |cursor.value| != |effectiveSorts| {
      return Err(CursorMismatch);
    }
    var params: seq<Value>, equalityConditions: seq<Clause>, comparisonGroups: seq<Clause> := [], [], [];
    for index := 0 to |effectiveSorts|
      invariant params == cursor.value[..index]
      invariant equalityConditions == Equalities(effectiveSorts[..index], startIndex)
      invariant comparisonGroups == CursorGroups(effectiveSorts, cursor.value, startIndex)[..index]
    {
      var sort, cursorValue := effectiveSorts[index], cursor.value[index];
      var paramIndex := startIndex + |params| + 1;
      params := params + [cursorValue];
      comparisonGroups := comparisonGroups +
        [AllOf(equalityConditions + [CursorComparison(sort, paramIndex, cursorValue)])];
      equalityConditions := equalityConditions + [NotDistinct(sort.key, paramIndex)];
      assert effectiveSorts[..index + 1] == effectiveSorts[..index] + [sort];
    }
    assert cursor.value[..|effectiveSorts|] == cursor.value;
    assert comparisonGroups == CursorGroups(effectiveSorts, cursor.value, startIndex);
    return Ok(Part(Some(AnyOf(comparisonGroups)), params));
  }

  function FilterPart(tags: Option<seq<string>>, start: nat): Part {
    if tags.None? || tags.value == [] then Part(None, [])
    else Part(Some(TagsOverlap(start + 1)), [StrArray(tags.value)])
  }

  function TokenClauses(tokens: seq<string>, start: nat): (r: seq<Clause>)
    ensures |r| == |tokens|
  {
    seq(|tokens|, k requires 0 <= k < |tokens| => AnyOf([FrontBackLike(start + k + 1), SomeTagLike(start + k + 1)]))
  }

  function TokenParams(tokens: seq<string>): (r: seq<Value>)
    ensures |r| == |tokens|
  {
    seq(|tokens|, k requires 0 <= k < |tokens| => Str("%" + tokens[k] + "%"))
  }

  function SearchPart(tokens: Option<seq<string>>, start: nat): Part {
    if tokens.None? then Part(None, [])
    else Part(Some(AllOf(TokenClauses(tokens.value, start))), TokenParams(tokens.value))
  }

  function Listed(clause: Option<Clause>): seq<Clause> {
    if clause.None? then [] else [clause.value]
  }

  /** A complete page statement: `where` selects filtered_cards, `cursor` is its outer WHERE. */
  datatype Statement = Statement(
    where: Clause,
    cursor: Option<Clause>,
    order: seq<OrderItem>,
    limitParam: nat,
    params: seq<Value>)

  function Where(q: Query): Clause {
    var filter := FilterPart(q.tags, 1);
    AllOf([InWorkspace(1), NotDeleted] + Listed(filter.clause)
          + Listed(SearchPart(q.tokens, 1 + |filter.params|).clause))
  }

  function WhereParams(q: Query): (r: seq<Value>)
    ensures |r| >= 1
  {
    [Uuid(q.workspaceId)] + FilterPart(q.tags, 1).params + SearchPart(q.tokens, 0).params
  }

  function Compile(q: Query, cursor: Cursor): Result<Statement, QueryError> {
    var sorts := EffectiveSorts(q.sorts);
    match CursorPart(sorts, cursor, |WhereParams(q)|)
    case Err(error) => Err(error)
    case Ok(part) =>
      Ok(Statement(Where(q), part.clause, OrderBy(sorts), |WhereParams(q)| + |part.params| + 1,
                   WhereParams(q) + part.params + [Number(q.limit + 1)]))
  }

  function Filter(e: Engine, c: Clause, params: seq<Value>, rows: seq<Row>): seq<Row> {
    if rows == [] then []
    else if Holds(e, c, params, rows[0]) then [rows[0]] + Filter(e, c, params, rows[1..])
    else Filter(e, c, params, rows[1..])
  }

  function Insert(e: Engine, order: seq<OrderItem>, row: Row, rows: seq<Row>): seq<Row> {
    if rows != [] && Earlier(e, order, rows[0], row) then [rows[0]] + Insert(e, order, row, rows[1..])
    else [row] + rows
  }

  function Sorted(e: Engine, order: seq<OrderItem>, rows: seq<Row>): seq<Row> {
    if rows == [] then [] else Insert(e, order, rows[0], Sorted(e, order, rows[1..]))
  }

  /** Running a page statement on a table. */
  function Execute(e: Engine, s: Statement, table: seq<Row>): seq<Row> {
    var base := Filter(e, s.where, s.params, table);
    var selected := if s.cursor.None? then base else Filter(e, s.cursor.value, s.params, base);
    var ordered := Sorted(e, s.order, selected);
    var limit := Arg(s.params, s.limitParam);
    if limit.Number? && 0 <= limit.n < |ordered| then ordered[..limit.n] else ordered
  }

  /** Cursors carry timestamps as ISO strings, which have millisecond precision. */
  function ToCursorValue(v: Value): Value {
    if v.Moment? then Moment(v.us - v.us % 1000) else v
  }

  function CursorOf(e: Engine, sorts: seq<Sort>, row: Row): (r: seq<Value>)
    ensures |r| == |sorts|
  {
    seq(|sorts|, k requires 0 <= k < |sorts| => ToCursorValue(Column(e, row, sorts[k].key)))
  }

  function CountCards(e: Engine, q: Query, table: seq<Row>): nat {
    |Filter(e, Where(q), WhereParams(q), table)|
  }

  method QueryCardsPage(e: Engine, table: seq<Row>, q: Query, cursor: Cursor) returns (r: Result<Page, QueryError>)
    ensures r.Ok? <==> Valid(q) && (cursor.Some? ==> |cursor.value| == |EffectiveSorts(q.sorts)|)
    ensures r.Ok? ==> r.value == PageOf(e, table, q, cursor)
    ensures r.Err? ==>
              if q.tokens == Some([]) then r.error == EmptySearch
              else if !(1 <= q.limit <= 100) then r.error == BadLimit
              else if |q.sorts| > 3 then r.error == TooManySorts
              else if !DistinctKeys(q.sorts) then
                exists i, j :: 0 <= i < j < |q.sorts| && q.sorts[i].key == q.sorts[j].key
                               && r.error == DuplicateSortKey(q.sorts[j].key)
              else r.error == CursorMismatch
  {
    hide Filter, Execute, Sorted, Holds, CursorGroups, EffectiveSorts;
    if q.tokens == Some([]) {
      return Err(EmptySearch);
    }
    if q.limit < 1 || q.limit > MAXIMUM_PAGE_SIZE {
      return Err(BadLimit);
    }
    var normalizedSorts := NormalizeCardsQuerySorts(q.sorts);
    if normalizedSorts.Err? {
      return Err(normalizedSorts.error);
    }
    var effectiveSorts := BuildEffectiveCardsQuerySorts(normalizedSorts.value);
    var filter := FilterPart(q.tags, 1);
    var search := SearchPart(q.tokens, 1 + |filter.params|);
    var where := AllOf([InWorkspace(1), NotDeleted] + Listed(filter.clause) + Listed(search.clause));
    var params := [Uuid(q.workspaceId)] + filter.params + search.params;
    assert where == Where(q) && params == WhereParams(q);
    var totalCount := |Filter(e, where, params, table)|;
    var cursorPart := BuildCardsQueryCursorWhereClause(effectiveSorts, cursor, 1 + |filter.params| + |search.params|);
    if cursorPart.Err? {
      return Err(cursorPart.error);
    }
    var limitParamIndex := 2 + |filter.params| + |search.params| + |cursorPart.value.params|;
    var statement := Statement(where, cursorPart.value.clause, OrderBy(effectiveSorts), limitParamIndex,
                               params + cursorPart.value.params + [Number(q.limit + 1)]);
    assert statement == Compile(q, cursor).value;
    var rows := Execute(e, statement, table);
    var hasMore := |rows| > q.limit;
    var rowsForPage := if hasMore then rows[..q.limit] else rows;
    var nextCursor := if hasMore then Some(CursorOf(e, effectiveSorts, rows[q.limit - 1])) else None;
    return Ok(Page(rowsForPage, nextCursor, totalCount));
  }

  predicate Valid(q: Query) {
    && q.tokens != Some([])
    && 1 <= q.limit <= MAXIMUM_PAGE_SIZE
    && |q.sorts| <= MAXIMUM_SORT_COUNT && DistinctKeys(q.sorts)
  }

  /** The page the endpoint returns for a valid query and a cursor of matching width. */
  function PageOf(e: Engine, table: seq<Row>, q: Query, cursor: Cursor): Page
    requires Valid(q) && (cursor.Some? ==> |cursor.value| == |EffectiveSorts(q.sorts)|)
  {
    var sorts := EffectiveSorts(q.sorts);
    var rows := Execute(e, Compile(q, cursor).value, table);
    if |rows| > q.limit
    then Page(rows[..q.limit], Some(CursorOf(e, sorts, rows[q.limit - 1])), CountCards(e, q, table))
    else Page(rows, None, CountCards(e, q, table))
  }
}
