/** The order of the pages, and the search, said of the cards' own fields. */
module CardsRowOrder {
  import opened Text
  import opened CardsSql
  import opened CardsQuery
  import opened CardsQueryLaws
  import opened CardsPageWalk

  /** The first tag, then a comma, a blank and the other tags joined likewise. */
  function JoinedTags(tags: seq<string>): string {
    if tags == [] then "" else if |tags| == 1 then tags[0] else tags[0] + ", " + JoinedTags(tags[1..])
  }

  /** r's field is smaller than s's; a card without due date comes before every card with one. */
  predicate Smaller(e: Engine, key: Key, r: Row, s: Row) {
    match key
    case FrontText => e.before(e.lower(r.frontText), e.lower(s.frontText))
    case BackText => e.before(e.lower(r.backText), e.lower(s.backText))
    case Tags => e.before(e.lower(JoinedTags(r.tags)), e.lower(JoinedTags(s.tags)))
    case DueAt => s.dueAt.Some? && (r.dueAt.None? || r.dueAt.value < s.dueAt.value)
    case Reps => r.reps < s.reps
    case Lapses => r.lapses < s.lapses
    case CreatedAt => r.createdAt < s.createdAt
    case CardId => r.cardId < s.cardId
  }

  predicate Same(e: Engine, key: Key, r: Row, s: Row) {
    match key
    case FrontText => e.lower(r.frontText) == e.lower(s.frontText)
    case BackText => e.lower(r.backText) == e.lower(s.backText)
    case Tags => e.lower(JoinedTags(r.tags)) == e.lower(JoinedTags(s.tags))
    case DueAt => r.dueAt == s.dueAt
    case Reps => r.reps == s.reps
    case Lapses => r.lapses == s.lapses
    case CreatedAt => r.createdAt == s.createdAt
    case CardId => r.cardId == s.cardId
  }

  /** Smaller fields first when ascending, greater ones when descending; so cards without due date come first
      ascending and last descending. */
  predicate Before(e: Engine, sort: Sort, r: Row, s: Row) {
    if sort.direction.Asc? then Smaller(e, sort.key, r, s) else Smaller(e, sort.key, s, r)
  }

  /** The first sort whose fields differ decides. */
  predicate StandsBefore(e: Engine, sorts: seq<Sort>, r: Row, s: Row) {
    sorts != [] && (Before(e, sorts[0], r, s) || (Same(e, sorts[0].key, r, s) && StandsBefore(e, sorts[1..], r, s)))
  }

  lemma {:induction false} TagsJoin(tags: seq<string>)
    ensures JoinedTags(tags) == if tags == [] then "" else Join(tags, ", ")
  {
    if |tags| > 1 {
      TagsJoin(tags[1..]);
    }
  }

  lemma PrecedesReadsFields(e: Engine, sort: Sort, r: Row, s: Row)
    ensures Precedes(e, OrderItemOf(sort), Column(e, r, sort.key), Column(e, s, sort.key)) <==> Before(e, sort, r, s)
    ensures Column(e, r, sort.key) == Column(e, s, sort.key) <==> Same(e, sort.key, r, s)
  {
    hide Join, JoinedTags;
    TagsJoin(r.tags);
    TagsJoin(s.tags);
  }

  lemma {:induction false} EarlierReadsFields(e: Engine, sorts: seq<Sort>, r: Row, s: Row)
    ensures Earlier(e, OrderBy(sorts), r, s) <==> StandsBefore(e, sorts, r, s)
  {
    if sorts != [] {
      hide Precedes, Column, Before, Same, OrderItemOf;
      PrecedesReadsFields(e, sorts[0], r, s);
      assert OrderBy(sorts)[1..] == OrderBy(sorts[1..]);
      EarlierReadsFields(e, sorts[1..], r, s);
    }
  }

  /** What breaks ties: the later creation time, unless creation time is sorted by anyway, and then the card id. */
  function Ties(sorts: seq<Sort>): seq<Sort> {
    if exists k | 0 <= k < |sorts| :: sorts[k].key == CreatedAt then [Sort(CardId, Asc)]
    else [Sort(CreatedAt, Desc), Sort(CardId, Asc)]
  }

  lemma NoSortsTies()
    ensures Ties([]) == [Sort(CreatedAt, Desc), Sort(CardId, Asc)]
  {
  }

  /** Any two matching cards stand in the order of the requested fields, ties broken by the later creation time and
      then by the smaller card id. */
  lemma MatchingCardsStandInOrder(e: Engine, table: seq<Row>, q: Query, i: nat, j: nat)
    requires Lawful(e) && UniqueIds(table) && i < j < |AllMatching(e, table, q)|
    ensures var r, s := AllMatching(e, table, q)[i], AllMatching(e, table, q)[j];
            StandsBefore(e, q.sorts + Ties(q.sorts), r, s)
  {
    hide AllMatching, Earlier, StandsBefore, Matches;
    AllMatchingMeans(e, table, q);
    EarlierReadsFields(e, EffectiveSorts(q.sorts), AllMatching(e, table, q)[i], AllMatching(e, table, q)[j]);
    assert q.sorts + [Sort(CreatedAt, Desc)] + [Sort(CardId, Asc)] == q.sorts + [Sort(CreatedAt, Desc), Sort(CardId, Asc)];
    assert q.sorts + [] + [Sort(CardId, Asc)] == q.sorts + [Sort(CardId, Asc)];
  }

  /** What the first requested sort says of two matching cards, key by key and direction by direction. */
  lemma FirstSortDecides(e: Engine, table: seq<Row>, q: Query, i: nat, j: nat)
    requires Lawful(e) && UniqueIds(table) && i < j < |AllMatching(e, table, q)| && q.sorts != []
    ensures var r, s := AllMatching(e, table, q)[i], AllMatching(e, table, q)[j];
            && (q.sorts[0] == Sort(Reps, Asc) ==> r.reps <= s.reps)
            && (q.sorts[0] == Sort(Reps, Desc) ==> r.reps >= s.reps)
            && (q.sorts[0] == Sort(Lapses, Asc) ==> r.lapses <= s.lapses)
            && (q.sorts[0] == Sort(Lapses, Desc) ==> r.lapses >= s.lapses)
            && (q.sorts[0] == Sort(CreatedAt, Asc) ==> r.createdAt <= s.createdAt)
            && (q.sorts[0] == Sort(CreatedAt, Desc) ==> r.createdAt >= s.createdAt)
            && (q.sorts[0] == Sort(DueAt, Asc) ==> r.dueAt.None? || (s.dueAt.Some? && r.dueAt.value <= s.dueAt.value))
            && (q.sorts[0] == Sort(DueAt, Desc) ==> s.dueAt.None? || (r.dueAt.Some? && r.dueAt.value >= s.dueAt.value))
            && (q.sorts[0] == Sort(FrontText, Asc) ==> !e.before(e.lower(s.frontText), e.lower(r.frontText)))
            && (q.sorts[0] == Sort(FrontText, Desc) ==> !e.before(e.lower(r.frontText), e.lower(s.frontText)))
            && (q.sorts[0] == Sort(BackText, Asc) ==> !e.before(e.lower(s.backText), e.lower(r.backText)))
            && (q.sorts[0] == Sort(BackText, Desc) ==> !e.before(e.lower(r.backText), e.lower(s.backText)))
            && (q.sorts[0] == Sort(Tags, Asc) ==> !e.before(e.lower(JoinedTags(s.tags)), e.lower(JoinedTags(r.tags))))
            && (q.sorts[0] == Sort(Tags, Desc) ==> !e.before(e.lower(JoinedTags(r.tags)), e.lower(JoinedTags(s.tags))))
  {
    hide AllMatching, JoinedTags, StandsBefore;
    MatchingCardsStandInOrder(e, table, q, i, j);
    var r, s := AllMatching(e, table, q)[i], AllMatching(e, table, q)[j];
    StandsBeforeFirst(e, q.sorts + Ties(q.sorts), r, s);
    assert (q.sorts + Ties(q.sorts))[0] == q.sorts[0];
    BeforeIsLawful(e, q.sorts[0], r, s);
  }

  lemma StandsBeforeFirst(e: Engine, sorts: seq<Sort>, r: Row, s: Row)
    requires StandsBefore(e, sorts, r, s)
    ensures sorts != [] && (Before(e, sorts[0], r, s) || Same(e, sorts[0].key, r, s))
  {
  }

  lemma BeforeIsLawful(e: Engine, sort: Sort, r: Row, s: Row)
    requires Lawful(e) && (Before(e, sort, r, s) || Same(e, sort.key, r, s))
    ensures !Before(e, sort, s, r)
  {
    hide JoinedTags;
  }

  /** Without a requested sort the newest card comes first, and of cards created together the one with the smaller id. */
  lemma NewestFirstByDefault(e: Engine, table: seq<Row>, q: Query, i: nat, j: nat)
    requires Lawful(e) && UniqueIds(table) && i < j < |AllMatching(e, table, q)| && q.sorts == []
    ensures var r, s := AllMatching(e, table, q)[i], AllMatching(e, table, q)[j];
            r.createdAt > s.createdAt || (r.createdAt == s.createdAt && r.cardId < s.cardId)
  {
    hide AllMatching;
    MatchingCardsStandInOrder(e, table, q, i, j);
    NoSortsTies();
    assert q.sorts == [];
    assert q.sorts + [Sort(CreatedAt, Desc), Sort(CardId, Asc)] == [Sort(CreatedAt, Desc), Sort(CardId, Asc)];
    TiesDecide(e, AllMatching(e, table, q)[i], AllMatching(e, table, q)[j]);
  }

  lemma TiesDecide(e: Engine, r: Row, s: Row)
    requires StandsBefore(e, [Sort(CreatedAt, Desc), Sort(CardId, Asc)], r, s)
    ensures r.createdAt > s.createdAt || (r.createdAt == s.createdAt && r.cardId < s.cardId)
  {
    var ties := [Sort(CreatedAt, Desc), Sort(CardId, Asc)];
    assert ties[1..] == [Sort(CardId, Asc)];
    assert ties[1..][1..] == [];
    assert !StandsBefore(e, ties[1..][1..], r, s);
    assert StandsBefore(e, ties[1..], r, s) ==> Before(e, ties[1..][0], r, s);
  }

  lemma {:induction false} OverlapMeans(a: seq<string>, b: seq<string>)
    ensures Overlap(a, b) <==> exists t :: t in a && t in b
  {
    if a != [] {
      OverlapMeans(a[1..], b);
    }
  }

  lemma {:induction false} AnyTagLikeMeans(e: Engine, tags: seq<string>, pattern: string)
    ensures AnyTagLike(e, tags, pattern) <==> exists t :: t in tags && e.like(e.lower(t), pattern)
  {
    if tags != [] {
      AnyTagLikeMeans(e, tags[1..], pattern);
    }
  }

  /** The cards a query matches, on their fields: live, in the workspace, with one of the filter's tags if it names
      any, and with every search token, between any characters, in the lower-cased texts or a lower-cased tag. */
  lemma MatchesReadsFields(e: Engine, q: Query, row: Row)
    ensures Matches(e, q, row) <==>
            && row.workspaceId == q.workspaceId && row.deletedAt.None?
            && (q.tags.None? || q.tags.value == [] || exists t :: t in row.tags && t in q.tags.value)
            && (q.tokens.None? ||
                forall k | 0 <= k < |q.tokens.value| ::
                  var pattern := "%" + q.tokens.value[k] + "%";
                  || e.like(e.lower(row.frontText + " " + row.backText), pattern)
                  || exists t :: t in row.tags && e.like(e.lower(t), pattern))
  {
    hide Overlap, AnyTagLike;
    if q.tags.Some? {
      OverlapMeans(row.tags, q.tags.value);
    }
    if q.tokens.Some? {
      forall k | 0 <= k < |q.tokens.value|
        ensures var pattern := "%" + q.tokens.value[k] + "%";
                AnyTagLike(e, row.tags, pattern) <==> exists t :: t in row.tags && e.like(e.lower(t), pattern)
      {
        AnyTagLikeMeans(e, row.tags, "%" + q.tokens.value[k] + "%");
      }
    }
  }
}
