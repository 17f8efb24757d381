/** Following nextCursor from the first page over an unchanged table. */
module CardsPageWalk {
  import opened Text
  import opened CardsSql
  import opened CardsQuery
  import opened CardsQueryLaws

  /** The primary key. */
  predicate UniqueIds(rows: seq<Row>) {
    forall i, j | 0 <= i < j < |rows| :: rows[i].cardId != rows[j].cardId
  }

  ghost predicate Ordered(e: Engine, order: seq<OrderItem>, rows: seq<Row>) {
    forall i, j | 0 <= i < j < |rows| :: Earlier(e, order, rows[i], rows[j])
  }

  ghost predicate SameRows(a: seq<Row>, b: seq<Row>) {
    forall row :: row in a <==> row in b
  }

  lemma {:induction false} FilterKeeps(e: Engine, c: Clause, params: seq<Value>, rows: seq<Row>)
    ensures forall row :: row in Filter(e, c, params, rows) <==> row in rows && Holds(e, c, params, row)
    ensures UniqueIds(rows) ==> UniqueIds(Filter(e, c, params, rows))
  {
    hide Holds;
    if rows != [] {
      FilterKeeps(e, c, params, rows[1..]);
      assert rows == [rows[0]] + rows[1..];
      if UniqueIds(rows) && Holds(e, c, params, rows[0]) {
        var rest := Filter(e, c, params, rows[1..]);
        forall j | 0 <= j < |rest| ensures rest[j].cardId != rows[0].cardId {
          assert rest[j] in rows[1..];
        }
      }
    }
  }

  lemma {:induction false} InsertKeepsOrder(e: Engine, order: seq<OrderItem>, row: Row, rows: seq<Row>)
    requires Lawful(e) && Ordered(e, order, rows)
    requires forall s | s in rows :: Earlier(e, order, row, s) || Earlier(e, order, s, row)
    ensures Ordered(e, order, Insert(e, order, row, rows))
    ensures forall s :: s in Insert(e, order, row, rows) <==> s == row || s in rows
  {
    hide Earlier;
    if rows != [] {
      assert rows == [rows[0]] + rows[1..];
      if Earlier(e, order, rows[0], row) {
        assert forall i | 0 <= i < |rows[1..]| :: rows[1..][i] == rows[i + 1];
        InsertKeepsOrder(e, order, row, rows[1..]);
        var rest := Insert(e, order, row, rows[1..]);
        forall j | 0 <= j < |rest| ensures Earlier(e, order, rows[0], rest[j]) {
          assert rest[j] == row || rest[j] in rows[1..];
        }
      } else {
        forall j | 0 <= j < |rows| ensures Earlier(e, order, row, rows[j]) {
          assert rows[0] in rows;
          EarlierIsStrict(e, order, row, rows[0], rows[j]);
        }
      }
    }
  }

  lemma {:induction false} SortedIsOrdered(e: Engine, sorts: seq<Sort>, rows: seq<Row>)
    requires Lawful(e) && UniqueIds(rows)
    ensures Ordered(e, OrderBy(EffectiveSorts(sorts)), Sorted(e, OrderBy(EffectiveSorts(sorts)), rows))
    ensures SameRows(rows, Sorted(e, OrderBy(EffectiveSorts(sorts)), rows))
  {
    hide Earlier, EffectiveSorts;
    var order := OrderBy(EffectiveSorts(sorts));
    if rows != [] {
      assert rows == [rows[0]] + rows[1..];
      SortedIsOrdered(e, sorts, rows[1..]);
      var rest := Sorted(e, order, rows[1..]);
      forall s | s in rest ensures Earlier(e, order, rows[0], s) || Earlier(e, order, s, rows[0]) {
        assert s in rows[1..];
        OrderIsStrictTotal(e, sorts, rows[0], s, s);
      }
      InsertKeepsOrder(e, order, rows[0], rest);
    }
  }

  lemma OrderedHasNoRepeats(e: Engine, order: seq<OrderItem>, rows: seq<Row>, i: nat, j: nat)
    requires Lawful(e) && Ordered(e, order, rows) && i < |rows| && j < |rows| && rows[i] == rows[j]
    ensures i == j
  {
    EarlierIsStrict(e, order, rows[i], rows[j], rows[j]);
  }

  /** An ordered list is determined by the rows it holds. */
  lemma {:induction false} OrderedIsUnique(e: Engine, order: seq<OrderItem>, a: seq<Row>, b: seq<Row>)
    requires Lawful(e) && Ordered(e, order, a) && Ordered(e, order, b) && SameRows(a, b)
    ensures a == b
  {
    hide Earlier;
    assert b != [] ==> b[0] in b;
    if a != [] {
      assert a[0] in b && b != [] && b[0] in a;
      var i :| 0 <= i < |b| && b[i] == a[0];
      var j :| 0 <= j < |a| && a[j] == b[0];
      if i > 0 {
        EarlierIsStrict(e, order, b[0], a[0], b[0]);
        assert false;
      }
      forall row ensures row in a[1..] <==> row in b[1..] {
        if row in a[1..] {
          var k :| 1 <= k < |a| && a[k] == row;
          assert row in b;
          if row == a[0] {
            OrderedHasNoRepeats(e, order, a, 0, k);
          }
        }
        if row in b[1..] {
          var k :| 1 <= k < |b| && b[k] == row;
          assert row in a;
          if row == b[0] {
            OrderedHasNoRepeats(e, order, b, 0, k);
          }
        }
      }
      OrderedIsUnique(e, order, a[1..], b[1..]);
    }
  }

  /** Every matching card of the table, in ORDER BY order. */
  function AllMatching(e: Engine, table: seq<Row>, q: Query): seq<Row> {
    Sorted(e, OrderBy(EffectiveSorts(q.sorts)), Filter(e, Where(q), WhereParams(q), table))
  }

  lemma AllMatchingMeans(e: Engine, table: seq<Row>, q: Query)
    requires Lawful(e) && UniqueIds(table)
    ensures Ordered(e, OrderBy(EffectiveSorts(q.sorts)), AllMatching(e, table, q))
    ensures forall row :: row in AllMatching(e, table, q) <==> row in table && Matches(e, q, row)
    ensures |AllMatching(e, table, q)| == CountCards(e, q, table)
  {
    hide Earlier, Matches, EffectiveSorts;
    var selected := Filter(e, Where(q), WhereParams(q), table);
    FilterKeeps(e, Where(q), WhereParams(q), table);
    SortedIsOrdered(e, q.sorts, selected);
    forall row ensures Holds(e, Where(q), WhereParams(q), row) <==> Matches(e, q, row) {
      WhereMeans(e, q, WhereParams(q), row);
    }
    SortedKeepsLength(e, OrderBy(EffectiveSorts(q.sorts)), selected);
  }

  lemma {:induction false} InsertAddsOne(e: Engine, order: seq<OrderItem>, row: Row, rows: seq<Row>)
    ensures |Insert(e, order, row, rows)| == |rows| + 1
  {
    if rows != [] && Earlier(e, order, rows[0], row) {
      InsertAddsOne(e, order, row, rows[1..]);
    }
  }

  lemma {:induction false} SortedKeepsLength(e: Engine, order: seq<OrderItem>, rows: seq<Row>)
    ensures |Sorted(e, order, rows)| == |rows|
  {
    if rows != [] {
      SortedKeepsLength(e, order, rows[1..]);
      InsertAddsOne(e, order, rows[0], Sorted(e, order, rows[1..]));
    }
  }

  lemma {:induction false} FilterSeesSameAnswers(e: Engine, c: Clause, p: seq<Value>, p': seq<Value>, rows: seq<Row>)
    requires forall row :: Holds(e, c, p, row) <==> Holds(e, c, p', row)
    ensures Filter(e, c, p, rows) == Filter(e, c, p', rows)
  {
    hide Holds;
    if rows != [] {
      FilterSeesSameAnswers(e, c, p, p', rows[1..]);
    }
  }

  lemma WhereFilterIgnoresLaterParams(e: Engine, q: Query, params: seq<Value>, table: seq<Row>)
    requires WhereParams(q) <= params
    ensures Filter(e, Where(q), params, table) == Filter(e, Where(q), WhereParams(q), table)
  {
    forall row ensures Holds(e, Where(q), params, row) <==> Holds(e, Where(q), WhereParams(q), row) {
      WhereMeans(e, q, params, row);
      WhereMeans(e, q, WhereParams(q), row);
    }
    FilterSeesSameAnswers(e, Where(q), params, WhereParams(q), table);
  }

  function Min(a: int, b: int): int { if a < b then a else b }

  /** The position a cursor stands for: None is the start, a row's cursor is just behind that row. */
  ghost predicate CursorAt(e: Engine, table: seq<Row>, q: Query, cursor: Cursor, i: nat) {
    var all := AllMatching(e, table, q);
    i <= |all| &&
    if i == 0 then cursor == None
    else cursor == Some(CursorOf(e, EffectiveSorts(q.sorts), all[i - 1]))
  }

  /** Cut down to whole milliseconds, the row before position i still stands at the same place among the matching
      cards, so the cursor made from it cuts the list right there. */
  ghost predicate CutsCleanly(e: Engine, table: seq<Row>, q: Query, i: nat) {
    var order, all := OrderBy(EffectiveSorts(q.sorts)), AllMatching(e, table, q);
    0 < i <= |all| ==>
      forall row | row in all :: Earlier(e, order, Floored(all[i - 1]), row) <==> Earlier(e, order, all[i - 1], row)
  }

  /** What remains to be fetched after the i-th card, as the statement computes it. */
  function Remaining(e: Engine, table: seq<Row>, q: Query, i: nat): seq<Row>
    requires 0 < i <= |AllMatching(e, table, q)|
  {
    var s := Compile(q, Some(CursorOf(e, EffectiveSorts(q.sorts), AllMatching(e, table, q)[i - 1]))).value;
    Sorted(e, s.order, Filter(e, s.cursor.value, s.params, Filter(e, s.where, s.params, table)))
  }

  /** The rows fetched behind the i-th are the matching ones behind its cut-down copy, in order. */
  lemma RemainingMeans(e: Engine, table: seq<Row>, q: Query, i: nat)
    requires Lawful(e) && UniqueIds(table) && 0 < i <= |AllMatching(e, table, q)|
    ensures var order, all := OrderBy(EffectiveSorts(q.sorts)), AllMatching(e, table, q);
            && Ordered(e, order, Remaining(e, table, q, i))
            && forall row :: row in Remaining(e, table, q, i) <==>
                             row in all && Earlier(e, order, Floored(all[i - 1]), row)
  {
    hide Earlier, EffectiveSorts, Matches, Holds, WhereParams, Where;
    var sorts, all := EffectiveSorts(q.sorts), AllMatching(e, table, q);
    var cursor := CursorOf(e, sorts, all[i - 1]);
    var s := Compile(q, Some(cursor)).value;
    var base := Filter(e, Where(q), s.params, table);
    var rest := Filter(e, s.cursor.value, s.params, base);
    assert WhereParams(q) <= s.params;
    WhereFilterIgnoresLaterParams(e, q, s.params, table);
    FilterKeeps(e, Where(q), WhereParams(q), table);
    FilterKeeps(e, s.cursor.value, s.params, base);
    SortedIsOrdered(e, q.sorts, base);
    SortedIsOrdered(e, q.sorts, rest);
    var start := |WhereParams(q)|;
    assert s.params[start..start + |sorts|] == cursor;
    forall row ensures row in rest <==> row in all && Earlier(e, s.order, Floored(all[i - 1]), row) {
      CursorSelectsStrictlyAfter(e, sorts, start, s.params, all[i - 1], row);
    }
  }

  lemma BehindMeansLater(e: Engine, order: seq<OrderItem>, all: seq<Row>, i: nat, row: Row)
    requires Lawful(e) && Ordered(e, order, all) && 0 < i <= |all| && row in all
    ensures Earlier(e, order, all[i - 1], row) <==> row in all[i..]
  {
    hide Earlier;
    if row in all[i..] {
      var k :| i <= k < |all| && all[k] == row;
    }
    if Earlier(e, order, all[i - 1], row) {
      var k :| 0 <= k < |all| && all[k] == row;
      EarlierIsStrict(e, order, all[i - 1], row, all[i - 1]);
      assert k >= i;
      assert all[i..][k - i] == row;
    }
  }

  /** A clean cut leaves the rows behind the i-th. */
  lemma CursorCutsTheList(e: Engine, table: seq<Row>, q: Query, i: nat)
    requires Lawful(e) && UniqueIds(table) && 0 < i <= |AllMatching(e, table, q)| && CutsCleanly(e, table, q, i)
    ensures Remaining(e, table, q, i) == AllMatching(e, table, q)[i..]
  {
    hide Earlier, EffectiveSorts, AllMatching, Remaining, Matches;
    var order, all := OrderBy(EffectiveSorts(q.sorts)), AllMatching(e, table, q);
    var rest := Remaining(e, table, q, i);
    AllMatchingMeans(e, table, q);
    RemainingMeans(e, table, q, i);
    forall row ensures row in rest <==> row in all[i..] {
      if row in all {
        BehindMeansLater(e, order, all, i, row);
      }
    }
    assert forall k | 0 <= k < |all[i..]| :: all[i..][k] == all[i + k];
    OrderedIsUnique(e, order, rest, all[i..]);
  }

  /** Only a clean cut leaves a list that starts with the next card. */
  lemma NextCardMeansCleanCut(e: Engine, table: seq<Row>, q: Query, i: nat)
    requires Lawful(e) && UniqueIds(table) && 0 < i < |AllMatching(e, table, q)|
    requires Remaining(e, table, q, i) != [] && Remaining(e, table, q, i)[0] == AllMatching(e, table, q)[i]
    ensures CutsCleanly(e, table, q, i)
  {
    hide Earlier, EffectiveSorts, AllMatching, Remaining, Matches, Floored;
    var order, all := OrderBy(EffectiveSorts(q.sorts)), AllMatching(e, table, q);
    var rest := Remaining(e, table, q, i);
    AllMatchingMeans(e, table, q);
    RemainingMeans(e, table, q, i);
    var f, b, next := Floored(all[i - 1]), all[i - 1], all[i];
    assert next in rest;
    forall row | row in all ensures Earlier(e, order, f, row) <==> Earlier(e, order, b, row) {
      BehindMeansLater(e, order, all, i, row);
      if row in rest {
        var k :| 0 <= k < |rest| && rest[k] == row;
        EarlierIsStrict(e, order, b, next, row);
      }
      if row in all[i..] {
        var k :| i <= k < |all| && all[k] == row;
        EarlierIsStrict(e, order, f, next, row);
      }
    }
  }

  /** Timestamps in whole milliseconds make every cut clean. */
  lemma PreciseRowsCutCleanly(e: Engine, table: seq<Row>, q: Query, i: nat)
    requires Lawful(e) && UniqueIds(table)
    requires forall row | row in table :: PreciseFor(EffectiveSorts(q.sorts), row)
    ensures CutsCleanly(e, table, q, i)
  {
    hide Earlier, EffectiveSorts, AllMatching, Matches, PreciseFor, Floored;
    var sorts, all := EffectiveSorts(q.sorts), AllMatching(e, table, q);
    AllMatchingMeans(e, table, q);
    if 0 < i <= |all| {
      var b := all[i - 1];
      assert b in all;
      CursorDescribesFloored(e, sorts, b);
      forall row | row in all
        ensures Earlier(e, OrderBy(sorts), Floored(b), row) <==> Earlier(e, OrderBy(sorts), b, row)
      {
        SameColumnsSameOrder(e, OrderBy(sorts), Floored(b), b, row);
      }
    }
  }

  lemma PageIsASlice(e: Engine, table: seq<Row>, q: Query, cursor: Cursor, i: nat)
    requires Lawful(e) && UniqueIds(table) && Valid(q)
    requires CursorAt(e, table, q, cursor, i) && CutsCleanly(e, table, q, i)
    ensures var all, page := AllMatching(e, table, q), PageOf(e, table, q, cursor);
            && page.cards == all[i..Min(i + q.limit, |all|)]
            && page.totalCount == |all|
            && (page.nextCursor.Some? <==> i + q.limit < |all|)
            && (page.nextCursor.Some? ==> CursorAt(e, table, q, page.nextCursor, i + q.limit))
  {
    hide EffectiveSorts, Where, WhereParams, Filter, Sorted, CutsCleanly;
    var all := AllMatching(e, table, q);
    var s := Compile(q, cursor).value;
    AllMatchingMeans(e, table, q);
    assert s.params[|s.params| - 1] == Number(q.limit + 1);
    assert WhereParams(q) <= s.params;
    if i == 0 {
      WhereFilterIgnoresLaterParams(e, q, s.params, table);
      assert all[0..] == all;
    } else {
      CursorCutsTheList(e, table, q, i);
    }
    var rows := Execute(e, s, table);
    assert rows == all[i..][..Min(q.limit + 1, |all| - i)];
    assert rows == all[i..Min(i + q.limit + 1, |all|)];
  }

  ghost predicate NextPage(e: Engine, table: seq<Row>, q: Query, page: Page, next: Page)
    requires Valid(q)
  {
    && page.nextCursor.Some?
    && |page.nextCursor.value| == |EffectiveSorts(q.sorts)|
    && next == PageOf(e, table, q, page.nextCursor)
  }

  /** Pages fetched one after the other: the first with no cursor, each next with the cursor before it. */
  ghost predicate Follows(e: Engine, table: seq<Row>, q: Query, pages: seq<Page>)
    requires Valid(q)
  {
    && |pages| > 0
    && pages[0] == PageOf(e, table, q, None)
    && forall j, k | 0 <= j < |pages| && 0 <= k < |pages| && k == j + 1 :: NextPage(e, table, q, pages[j], pages[k])
  }

  /** Where the k-th page starts. */
  function Offset(q: Query, k: nat): int { k * q.limit }

  lemma OffsetNext(q: Query, k: nat)
    ensures Offset(q, 0) == 0 && Offset(q, k + 1) == Offset(q, k) + q.limit
    ensures q.limit > 0 ==> Offset(q, k) >= 0
  {
  }

  /** The first n page boundaries are clean cuts. */
  ghost predicate CleanUpTo(e: Engine, table: seq<Row>, q: Query, n: nat) {
    forall k: nat | k < n && 0 <= Offset(q, k) < |AllMatching(e, table, q)| :: CutsCleanly(e, table, q, Offset(q, k))
  }

  ghost predicate CleanCuts(e: Engine, table: seq<Row>, q: Query) {
    forall n: nat :: CleanUpTo(e, table, q, n)
  }

  lemma NoCutAtTheStart(e: Engine, table: seq<Row>, q: Query)
    ensures CutsCleanly(e, table, q, 0)
  {
  }

  lemma {:induction false} WalkedPage(e: Engine, table: seq<Row>, q: Query, pages: seq<Page>, k: nat)
    requires Lawful(e) && UniqueIds(table) && CleanUpTo(e, table, q, k + 1) && Valid(q)
    requires Follows(e, table, q, pages) && k < |pages|
    ensures var all := AllMatching(e, table, q);
            && 0 <= Offset(q, k) <= |all|
            && pages[k].cards == all[Offset(q, k)..Min(Offset(q, k) + q.limit, |all|)]
            && pages[k].totalCount == |all|
            && (pages[k].nextCursor.Some? <==> Offset(q, k + 1) < |all|)
            && (pages[k].nextCursor.Some? ==>
                  Offset(q, k + 1) >= 0 && CursorAt(e, table, q, pages[k].nextCursor, Offset(q, k + 1)))
  {
    hide PageOf, AllMatching, EffectiveSorts, Lawful, UniqueIds, CutsCleanly, Offset;
    OffsetNext(q, k);
    if k == 0 {
      NoCutAtTheStart(e, table, q);
      PageIsASlice(e, table, q, None, 0);
    } else {
      WalkedPage(e, table, q, pages, k - 1);
      assert NextPage(e, table, q, pages[k - 1], pages[k]);
      hide Follows, NextPage;
      PageIsASlice(e, table, q, pages[k - 1].nextCursor, Offset(q, k));
    }
  }

  function AllCards(pages: seq<Page>): seq<Row> {
    if pages == [] then [] else AllCards(pages[..|pages| - 1]) + pages[|pages| - 1].cards
  }

  lemma FollowsIsNotEmpty(e: Engine, table: seq<Row>, q: Query, pages: seq<Page>)
    requires Valid(q) && Follows(e, table, q, pages)
    ensures |pages| > 0
  {
  }

  lemma FewerCleanCuts(e: Engine, table: seq<Row>, q: Query, m: nat, n: nat)
    requires CleanUpTo(e, table, q, n) && m <= n
    ensures CleanUpTo(e, table, q, m)
  {
    hide CutsCleanly, AllMatching, Offset;
  }

  lemma FollowsPrefix(e: Engine, table: seq<Row>, q: Query, pages: seq<Page>, n: nat)
    requires Valid(q) && Follows(e, table, q, pages) && 0 < n <= |pages|
    ensures Follows(e, table, q, pages[..n])
  {
    hide PageOf, NextPage;
  }

  lemma {:induction false} CardsSoFar(e: Engine, table: seq<Row>, q: Query, pages: seq<Page>)
    requires Lawful(e) && UniqueIds(table) && CleanUpTo(e, table, q, |pages|) && Valid(q)
    requires Follows(e, table, q, pages)
    ensures AllCards(pages) == AllMatching(e, table, q)[..Min(Offset(q, |pages|), |AllMatching(e, table, q)|)]
    decreases |pages|
  {
    hide PageOf, AllMatching, EffectiveSorts, Offset, CutsCleanly, CleanUpTo, Follows, NextPage, UniqueIds, Lawful;
    var all, n := AllMatching(e, table, q), |pages|;
    assert n > 0 by { FollowsIsNotEmpty(e, table, q, pages); }
    WalkedPage(e, table, q, pages, n - 1);
    OffsetNext(q, n - 1);
    if n > 1 {
      FollowsPrefix(e, table, q, pages, n - 1);
      FewerCleanCuts(e, table, q, n - 1, n);
      CardsSoFar(e, table, q, pages[..n - 1]);
      assert all[..Min(Offset(q, n), |all|)] == all[..Offset(q, n - 1)] + pages[n - 1].cards;
    } else {
      assert pages[..0] == [];
      assert AllCards(pages[..0]) == [];
      assert AllCards(pages) == [] + pages[0].cards;
      assert [] + pages[0].cards == pages[0].cards;
    }
  }

  /** ceil(n / limit), and one page even when nothing matches. */
  function PageCount(n: nat, limit: int): nat
    requires limit > 0
  {
    if n == 0 then 1 else (n - 1) / limit + 1
  }

  /** The walk theorem. Over an unchanged table, pages fetched from the null cursor never exceed
      PageCount(n, limit); the walk is over, its last cursor null, exactly when that many pages were fetched;
      and then the pages together are every matching card, once, in ORDER BY order. */
  lemma {:induction false} WalkIsExact(e: Engine, table: seq<Row>, q: Query, pages: seq<Page>)
    requires Lawful(e) && UniqueIds(table) && CleanCuts(e, table, q) && Valid(q)
    requires Follows(e, table, q, pages)
    ensures var all := AllMatching(e, table, q);
            && |pages| <= PageCount(|all|, q.limit)
            && (pages[|pages| - 1].nextCursor.None? <==> |pages| == PageCount(|all|, q.limit))
            && (pages[|pages| - 1].nextCursor.None? ==> AllCards(pages) == all)
            && (forall k | 0 <= k < |pages| :: pages[k].totalCount == |all|)
    ensures Ordered(e, OrderBy(EffectiveSorts(q.sorts)), AllMatching(e, table, q))
    ensures forall row :: row in AllMatching(e, table, q) <==> row in table && Matches(e, q, row)
  {
    hide PageOf, AllMatching, EffectiveSorts, Matches, Ordered, CleanUpTo;
    var all, n := AllMatching(e, table, q), |pages|;
    AllMatchingMeans(e, table, q);
    WalkedPage(e, table, q, pages, n - 1);
    CardsSoFar(e, table, q, pages);
    PageCountMeans(|all|, q.limit, n);
    if n > 1 {
      WalkedPage(e, table, q, pages, n - 2);
    }
    forall k | 0 <= k < n ensures pages[k].totalCount == |all| {
      WalkedPage(e, table, q, pages, k);
    }
  }

  lemma MulMonotone(a: int, b: int, limit: int)
    requires limit > 0 && a <= b
    ensures a * limit <= b * limit
  {
  }

  lemma DivisionBounds(x: nat, limit: int)
    requires limit > 0
    ensures (x / limit) * limit <= x < (x / limit + 1) * limit
  {
    assert x == limit * (x / limit) + x % limit;
  }

  lemma PageCountMeans(total: nat, limit: int, n: nat)
    requires limit > 0 && n > 0
    ensures n * limit >= total <==> n >= PageCount(total, limit)
    ensures (n - 1) * limit < total ==> n <= PageCount(total, limit)
  {
    if total == 0 {
      MulMonotone(0, n - 1, limit);
      MulMonotone(0, n, limit);
    } else {
      var d := (total - 1) / limit;
      DivisionBounds(total - 1, limit);
      if n <= d {
        MulMonotone(n, d, limit);
      } else {
        MulMonotone(d + 1, n, limit);
        if n > d + 1 {
          MulMonotone(d + 1, n - 1, limit);
        }
      }
    }
  }

  /** A walk that is not over can always take its next step. */
  lemma WalkContinues(e: Engine, table: seq<Row>, q: Query, pages: seq<Page>)
    requires Lawful(e) && UniqueIds(table) && CleanCuts(e, table, q) && Valid(q)
    requires Follows(e, table, q, pages) && pages[|pages| - 1].nextCursor.Some?
    ensures var next := pages[|pages| - 1].nextCursor;
            && |next.value| == |EffectiveSorts(q.sorts)|
            && Follows(e, table, q, pages + [PageOf(e, table, q, next)])
  {
    WalkedPage(e, table, q, pages, |pages| - 1);
  }

  /** A finished walk that returned every matching card once, in order. */
  ghost predicate Exact(e: Engine, table: seq<Row>, q: Query, pages: seq<Page>)
    requires Valid(q)
  {
    && Follows(e, table, q, pages)
    && pages[|pages| - 1].nextCursor.None?
    && AllCards(pages) == AllMatching(e, table, q)
  }

  /** Any walk can be finished. */
  lemma FinishWalk(e: Engine, table: seq<Row>, q: Query, pages: seq<Page>) returns (finished: seq<Page>)
    requires Lawful(e) && UniqueIds(table) && CleanCuts(e, table, q) && Valid(q)
    requires Follows(e, table, q, pages)
    ensures Exact(e, table, q, finished)
    decreases PageCount(|AllMatching(e, table, q)|, q.limit) - |pages|
  {
    hide PageOf, AllMatching, EffectiveSorts, Matches, Ordered, CleanCuts, PageCount, NextPage;
    WalkIsExact(e, table, q, pages);
    finished := pages;
    if pages[|pages| - 1].nextCursor.Some? {
      WalkContinues(e, table, q, pages);
      finished := FinishWalk(e, table, q, pages + [PageOf(e, table, q, pages[|pages| - 1].nextCursor)]);
    }
  }

  /** A page behind the i-th card, cleanly cut or not. */
  lemma PageTakesRemaining(e: Engine, table: seq<Row>, q: Query, cursor: Cursor, i: nat)
    requires Lawful(e) && UniqueIds(table) && Valid(q) && i > 0 && CursorAt(e, table, q, cursor, i)
    ensures var rest, page := Remaining(e, table, q, i), PageOf(e, table, q, cursor);
            && page.cards == rest[..Min(q.limit, |rest|)]
            && (page.nextCursor.Some? <==> |rest| > q.limit)
  {
    hide EffectiveSorts, Where, WhereParams, Filter, Sorted, AllMatching;
    var s := Compile(q, cursor).value;
    assert s.params[|s.params| - 1] == Number(q.limit + 1);
    var rest := Remaining(e, table, q, i);
    assert Execute(e, s, table) == rest[..Min(q.limit + 1, |rest|)];
  }

  lemma {:induction false} AllCardsPrefix(pages: seq<Page>, n: nat)
    requires n <= |pages|
    ensures AllCards(pages[..n]) <= AllCards(pages)
  {
    if n == |pages| {
      assert pages[..n] == pages;
    } else {
      AllCardsPrefix(pages[..|pages| - 1], n);
      assert pages[..|pages| - 1][..n] == pages[..n];
    }
  }

  /** In an exact walk the page behind a clean start is where the next cut falls, so that cut is clean too. */
  lemma {:induction false} ExactWalkCutsCleanly(e: Engine, table: seq<Row>, q: Query, pages: seq<Page>, n: nat)
    requires Lawful(e) && UniqueIds(table) && Valid(q) && Exact(e, table, q, pages)
    ensures CleanUpTo(e, table, q, n)
  {
    hide PageOf, AllMatching, EffectiveSorts, CutsCleanly, Offset, Remaining;
    if n > 0 {
      ExactWalkCutsCleanly(e, table, q, pages, n - 1);
      var k := n - 1;
      if k == 0 {
        OffsetNext(q, 0);
        NoCutAtTheStart(e, table, q);
      } else if 0 <= Offset(q, k) < |AllMatching(e, table, q)| {
        OffsetNext(q, k - 1);
        CutIsClean(e, table, q, pages, k);
      }
    }
  }

  lemma CutIsClean(e: Engine, table: seq<Row>, q: Query, pages: seq<Page>, k: nat)
    requires Lawful(e) && UniqueIds(table) && Valid(q) && Exact(e, table, q, pages)
    requires k > 0 && CleanUpTo(e, table, q, k) && 0 < Offset(q, k) < |AllMatching(e, table, q)|
    ensures CutsCleanly(e, table, q, Offset(q, k))
  {
    hide PageOf, AllMatching, EffectiveSorts, CutsCleanly, Offset, Remaining;
    var all := AllMatching(e, table, q);
    if |pages| <= k {
      WalkedPage(e, table, q, pages, |pages| - 1);
      OffsetGrows(q, |pages|, k);
      assert false;
    }
    WalkedPage(e, table, q, pages, k - 1);
    assert NextPage(e, table, q, pages[k - 1], pages[k]);
    PageTakesRemaining(e, table, q, pages[k - 1].nextCursor, Offset(q, k));
    CardsSoFar(e, table, q, pages[..k]);
    assert pages[..k + 1][..k] == pages[..k];
    AllCardsPrefix(pages, k + 1);
    var rest := Remaining(e, table, q, Offset(q, k));
    assert k + 1 < |pages| ==> NextPage(e, table, q, pages[k], pages[k + 1]);
    assert k + 1 == |pages| ==> pages[..k + 1] == pages;
    if rest == [] {
      assert false;
    }
    assert all[Offset(q, k)] == AllCards(pages[..k + 1])[Offset(q, k)] == pages[k].cards[0] == rest[0];
    NextCardMeansCleanCut(e, table, q, Offset(q, k));
  }

  lemma OffsetGrows(q: Query, j: nat, k: nat)
    requires j <= k && q.limit > 0
    ensures Offset(q, j) <= Offset(q, k)
  {
    MulMonotone(j, k, q.limit);
  }

  /** Exactly when paging is exact: some walk over the unchanged table ends having returned every matching card
      once and in order if and only if every page boundary is a clean cut. */
  lemma PagingIsExactWhenCutsAreClean(e: Engine, table: seq<Row>, q: Query)
    requires Lawful(e) && UniqueIds(table) && Valid(q)
    ensures (exists pages :: Exact(e, table, q, pages)) <==> CleanCuts(e, table, q)
  {
    hide PageOf, AllMatching, EffectiveSorts, Exact, CleanUpTo;
    if CleanCuts(e, table, q) {
      var first := [PageOf(e, table, q, None)];
      assert Follows(e, table, q, first);
      var _ := FinishWalk(e, table, q, first);
    }
    if pages :| Exact(e, table, q, pages) {
      forall n: nat ensures CleanUpTo(e, table, q, n) {
        ExactWalkCutsCleanly(e, table, q, pages, n);
      }
    }
  }

  /** Whole milliseconds in the columns sorted by make every walk exact. */
  lemma PreciseTimestampsSuffice(e: Engine, table: seq<Row>, q: Query)
    requires Lawful(e) && UniqueIds(table)
    requires forall row | row in table :: PreciseFor(EffectiveSorts(q.sorts), row)
    ensures CleanCuts(e, table, q)
  {
    hide CutsCleanly, PreciseFor, EffectiveSorts, AllMatching, Offset;
    forall k: nat | 0 <= Offset(q, k) < |AllMatching(e, table, q)|
      ensures CutsCleanly(e, table, q, Offset(q, k))
    {
      PreciseRowsCutCleanly(e, table, q, Offset(q, k));
    }
  }

  function PlainCard(id: nat, createdAt: int): Row {
    Row(id, 0, None, "", "", [], None, createdAt, 0, 0, "")
  }

  const OLDEST_FIRST := Query(0, None, None, [Sort(CreatedAt, Asc)], 1)
  const TWO_CARDS := [PlainCard(1, 1), PlainCard(2, 2)]

  lemma OldestFirstOrder()
    ensures EffectiveSorts(OLDEST_FIRST.sorts) == [Sort(CreatedAt, Asc), Sort(CardId, Asc)]
    ensures OrderBy(EffectiveSorts(OLDEST_FIRST.sorts)) ==
            [OrderItem(CreatedAt, Asc, Unstated), OrderItem(CardId, Asc, Unstated)]
  {
    assert OLDEST_FIRST.sorts[0].key == CreatedAt;
  }

  lemma TwoCardsInOrder(e: Engine)
    requires Lawful(e)
    ensures var order := OrderBy(EffectiveSorts(OLDEST_FIRST.sorts));
            && Earlier(e, order, TWO_CARDS[0], TWO_CARDS[1])
            && Earlier(e, order, Floored(TWO_CARDS[0]), TWO_CARDS[0])
            && !Earlier(e, order, TWO_CARDS[0], TWO_CARDS[0])
    ensures AllMatching(e, TWO_CARDS, OLDEST_FIRST) == TWO_CARDS
  {
    hide AllMatching, EffectiveSorts;
    OldestFirstOrder();
    var order := OrderBy(EffectiveSorts(OLDEST_FIRST.sorts));
    AllMatchingMeans(e, TWO_CARDS, OLDEST_FIRST);
    EarlierIsStrict(e, order, TWO_CARDS[0], TWO_CARDS[0], TWO_CARDS[0]);
    assert forall row | row in TWO_CARDS :: Matches(e, OLDEST_FIRST, row);
    OrderedIsUnique(e, order, AllMatching(e, TWO_CARDS, OLDEST_FIRST), TWO_CARDS);
  }

  lemma FirstCutIsNotClean(e: Engine)
    requires Lawful(e)
    ensures !CutsCleanly(e, TWO_CARDS, OLDEST_FIRST, 1)
  {
    hide AllMatching, EffectiveSorts, Earlier, Floored;
    TwoCardsInOrder(e);
    assert TWO_CARDS[0] in AllMatching(e, TWO_CARDS, OLDEST_FIRST);
  }

  /** Two cards created one microsecond apart: paging by one, oldest first, never returns both exactly once,
      because the cursor of the first card is followed by that card itself. */
  lemma MicrosecondsBreakPaging(e: Engine)
    requires Lawful(e)
    ensures Valid(OLDEST_FIRST) && forall pages :: !Exact(e, TWO_CARDS, OLDEST_FIRST, pages)
  {
    hide AllMatching, EffectiveSorts, Exact, CutsCleanly, Earlier;
    TwoCardsInOrder(e);
    FirstCutIsNotClean(e);
    assert Offset(OLDEST_FIRST, 1) == 1;
    NoExactWalk(e, TWO_CARDS, OLDEST_FIRST, 2);
  }

  lemma NoExactWalk(e: Engine, table: seq<Row>, q: Query, n: nat)
    requires Lawful(e) && UniqueIds(table) && Valid(q) && !CleanUpTo(e, table, q, n)
    ensures forall pages :: !Exact(e, table, q, pages)
  {
    hide Exact, CleanUpTo;
    PagingIsExactWhenCutsAreClean(e, table, q);
    assert !CleanCuts(e, table, q);
  }
}
