/** The SQL fragments the cards query generates, as syntax trees, and their meaning under PostgreSQL's
    three-valued logic. Placeholders are numbered from 1; placeholder k denotes the k-th parameter. */
module CardsSql {
  import opened Text

  datatype Truth = True | False | Unknown

  datatype Value =
    | Null
    | Number(n: int)
    | Str(s: string)
    | Moment(us: int)
    | Uuid(id: nat)
    | StrArray(items: seq<string>)

  /** One row of content.cards; `payload` stands for the columns the query neither filters nor sorts by. */
  datatype Row = Row(
    cardId: nat,
    workspaceId: nat,
    deletedAt: Option<int>,
    frontText: string,
    backText: string,
    tags: seq<string>,
    dueAt: Option<int>,
    createdAt: int,
    reps: int,
    lapses: int,
    payload: string)

  /** What the database itself contributes: case folding, the collation order and LIKE. */
  datatype Engine = Engine(
    lower: string -> string,
    before: (string, string) -> bool,
    like: (string, string) -> bool)

  ghost predicate Lawful(e: Engine) {
    && (forall a :: !e.before(a, a))
    && (forall a, b, c :: e.before(a, b) && e.before(b, c) ==> e.before(a, c))
    && (forall a, b :: a != b ==> e.before(a, b) || e.before(b, a))
  }

  datatype Key = FrontText | BackText | Tags | DueAt | Reps | Lapses | CreatedAt | CardId

  function Column(e: Engine, row: Row, key: Key): Value {
    match key
    case FrontText => Str(e.lower(row.frontText))
    case BackText => Str(e.lower(row.backText))
    case Tags => Str(e.lower(if row.tags == [] then "" else Join(row.tags, ", ")))
    case DueAt => if row.dueAt.None? then Null else Moment(row.dueAt.value)
    case Reps => Number(row.reps)
    case Lapses => Number(row.lapses)
    case CreatedAt => Moment(row.createdAt)
    case CardId => Uuid(row.cardId)
  }

  datatype Clause =
    | Above(key: Key, param: nat)
    | Below(key: Key, param: nat)
    | IsNull(key: Key)
    | IsNotNull(key: Key)
    | NotDistinct(key: Key, param: nat)
    | Never
    | InWorkspace(param: nat)
    | NotDeleted
    | TagsOverlap(param: nat)
    | FrontBackLike(param: nat)
    | SomeTagLike(param: nat)
    | AllOf(parts: seq<Clause>)
    | AnyOf(parts: seq<Clause>)

  function FromBool(b: bool): Truth { if b then True else False }

  function And(a: Truth, b: Truth): Truth {
    if a == False || b == False then False else if a == Unknown || b == Unknown then Unknown else True
  }

  function Or(a: Truth, b: Truth): Truth {
    if a == True || b == True then True else if a == Unknown || b == Unknown then Unknown else False
  }

  /** `a < b`; NULL on either side is unknown, and so is a comparison across types, which the database refuses. */
  function Less(e: Engine, a: Value, b: Value): Truth {
    match (a, b)
    case (Number(x), Number(y)) => FromBool(x < y)
    case (Str(x), Str(y)) => FromBool(e.before(x, y))
    case (Moment(x), Moment(y)) => FromBool(x < y)
    case (Uuid(x), Uuid(y)) => FromBool(x < y)
    case _ => Unknown
  }

  function Arg(params: seq<Value>, k: nat): Value {
    if 1 <= k <= |params| then params[k - 1] else Null
  }

  predicate Overlap(a: seq<string>, b: seq<string>) {
    a != [] && (a[0] in b || Overlap(a[1..], b))
  }

  predicate AnyTagLike(e: Engine, tags: seq<string>, pattern: string) {
    tags != [] && (e.like(e.lower(tags[0]), pattern) || AnyTagLike(e, tags[1..], pattern))
  }

  function Eval(e: Engine, c: Clause, params: seq<Value>, row: Row): Truth {
    match c
    case Above(key, k) => Less(e, Arg(params, k), Column(e, row, key))
    case Below(key, k) => Less(e, Column(e, row, key), Arg(params, k))
    case IsNull(key) => FromBool(Column(e, row, key) == Null)
    case IsNotNull(key) => FromBool(Column(e, row, key) != Null)
    case NotDistinct(key, k) => FromBool(Column(e, row, key) == Arg(params, k))
    case Never => False
    case InWorkspace(k) => if Arg(params, k).Uuid? then FromBool(row.workspaceId == Arg(params, k).id) else Unknown
    case NotDeleted => FromBool(row.deletedAt.None?)
    case TagsOverlap(k) => if Arg(params, k).StrArray? then FromBool(Overlap(row.tags, Arg(params, k).items)) else Unknown
    case FrontBackLike(k) =>
      if Arg(params, k).Str? then FromBool(e.like(e.lower(row.frontText + " " + row.backText), Arg(params, k).s))
      else Unknown
    case SomeTagLike(k) =>
      if Arg(params, k).Str? then FromBool(AnyTagLike(e, row.tags, Arg(params, k).s))
      else Unknown
    case AllOf(parts) => EvalAll(e, parts, params, row)
    case AnyOf(parts) => EvalAny(e, parts, params, row)
  }

  function EvalAll(e: Engine, parts: seq<Clause>, params: seq<Value>, row: Row): Truth {
    if parts == [] then True else And(Eval(e, parts[0], params, row), EvalAll(e, parts[1..], params, row))
  }

  function EvalAny(e: Engine, parts: seq<Clause>, params: seq<Value>, row: Row): Truth {
    if parts == [] then False else Or(Eval(e, parts[0], params, row), EvalAny(e, parts[1..], params, row))
  }

  predicate Holds(e: Engine, c: Clause, params: seq<Value>, row: Row) {
    Eval(e, c, params, row) == True
  }

  lemma {:induction false} AllHolds(e: Engine, parts: seq<Clause>, params: seq<Value>, row: Row)
    ensures EvalAll(e, parts, params, row) == True <==> forall k | 0 <= k < |parts| :: Holds(e, parts[k], params, row)
  {
    if parts != [] {
      AllHolds(e, parts[1..], params, row);
      assert forall k | 1 <= k < |parts| :: parts[k] == parts[1..][k - 1];
    }
  }

  lemma {:induction false} AnyHolds(e: Engine, parts: seq<Clause>, params: seq<Value>, row: Row)
    ensures EvalAny(e, parts, params, row) == True <==> exists k | 0 <= k < |parts| :: Holds(e, parts[k], params, row)
  {
    if parts != [] {
      AnyHolds(e, parts[1..], params, row);
      assert forall k | 1 <= k < |parts| :: parts[k] == parts[1..][k - 1];
      if k :| 0 <= k < |parts[1..]| && Holds(e, parts[1..][k], params, row) {
        assert Holds(e, parts[k + 1], params, row);
      }
    }
  }

  /** The placeholders a clause mentions. */
  function Placeholders(c: Clause): set<nat> {
    match c
    case Above(_, k) => {k}
    case Below(_, k) => {k}
    case NotDistinct(_, k) => {k}
    case InWorkspace(k) => {k}
    case TagsOverlap(k) => {k}
    case FrontBackLike(k) => {k}
    case SomeTagLike(k) => {k}
    case AllOf(parts) => PlaceholdersOf(parts)
    case AnyOf(parts) => PlaceholdersOf(parts)
    case _ => {}
  }

  function PlaceholdersOf(parts: seq<Clause>): set<nat> {
    if parts == [] then {} else Placeholders(parts[0]) + PlaceholdersOf(parts[1..])
  }

  lemma {:induction false} PlaceholdersOfPart(parts: seq<Clause>, k: nat)
    ensures k in PlaceholdersOf(parts) <==> exists i | 0 <= i < |parts| :: k in Placeholders(parts[i])
  {
    if parts != [] {
      PlaceholdersOfPart(parts[1..], k);
      assert forall i | 1 <= i < |parts| :: parts[i] == parts[1..][i - 1];
      if i :| 0 <= i < |parts[1..]| && k in Placeholders(parts[1..][i]) {
        assert k in Placeholders(parts[i + 1]);
      }
    }
  }

  datatype Direction = Asc | Desc

  datatype Nulls = Unstated | First | Last

  datatype OrderItem = OrderItem(key: Key, direction: Direction, nulls: Nulls)

  /** PostgreSQL's default puts NULLs last when ascending and first when descending. */
  predicate NullsFirst(item: OrderItem) {
    item.nulls.First? || (item.nulls.Unstated? && item.direction.Desc?)
  }

  predicate Precedes(e: Engine, item: OrderItem, a: Value, b: Value) {
    if a == Null then b != Null && NullsFirst(item)
    else if b == Null then !NullsFirst(item)
    else if item.direction.Asc? then Less(e, a, b) == True
    else Less(e, b, a) == True
  }

  /** Strictly earlier under ORDER BY. */
  predicate Earlier(e: Engine, items: seq<OrderItem>, r: Row, s: Row) {
    items != [] &&
    var item := items[0];
    var a, b := Column(e, r, item.key), Column(e, s, item.key);
    Precedes(e, item, a, b) || (a == b && Earlier(e, items[1..], r, s))
  }

  lemma PrecedesIsStrictTotal(e: Engine, item: OrderItem, r: Row, s: Row, t: Row)
    requires Lawful(e)
    ensures var a, b, c := Column(e, r, item.key), Column(e, s, item.key), Column(e, t, item.key);
            && !Precedes(e, item, a, a)
            && (Precedes(e, item, a, b) && Precedes(e, item, b, c) ==> Precedes(e, item, a, c))
            && (a != b ==> Precedes(e, item, a, b) || Precedes(e, item, b, a))
            && !(Precedes(e, item, a, b) && Precedes(e, item, b, a))
  {
  }

  lemma {:induction false} EarlierIsStrict(e: Engine, items: seq<OrderItem>, r: Row, s: Row, t: Row)
    requires Lawful(e)
    ensures !Earlier(e, items, r, r)
    ensures Earlier(e, items, r, s) && Earlier(e, items, s, t) ==> Earlier(e, items, r, t)
  {
    if items != [] {
      hide Precedes, Column;
      PrecedesIsStrictTotal(e, items[0], r, s, t);
      EarlierIsStrict(e, items[1..], r, s, t);
    }
  }

  /** Rows that differ in some ordered column are ordered one way or the other. */
  lemma {:induction false} EarlierIsTotal(e: Engine, items: seq<OrderItem>, r: Row, s: Row, k: nat)
    requires Lawful(e)
    requires k < |items| && Column(e, r, items[k].key) != Column(e, s, items[k].key)
    ensures Earlier(e, items, r, s) || Earlier(e, items, s, r)
  {
    hide Precedes, Column;
    PrecedesIsStrictTotal(e, items[0], r, s, s);
    if Column(e, r, items[0].key) == Column(e, s, items[0].key) {
      EarlierIsTotal(e, items[1..], r, s, k - 1);
    }
  }

  /** Lexicographic order, position by position. */
  lemma {:induction false} EarlierAtSomePosition(e: Engine, items: seq<OrderItem>, r: Row, s: Row)
    ensures Earlier(e, items, r, s) <==> exists i | 0 <= i < |items| :: DecidesAt(e, items, r, s, i)
  {
    if items != [] {
      hide Precedes, Column;
      EarlierAtSomePosition(e, items[1..], r, s);
      assert forall i | 1 <= i < |items| :: items[i] == items[1..][i - 1];
      if Precedes(e, items[0], Column(e, r, items[0].key), Column(e, s, items[0].key)) {
        assert DecidesAt(e, items, r, s, 0);
      } else if Earlier(e, items, r, s) {
        var i :| 0 <= i < |items| - 1 && DecidesAt(e, items[1..], r, s, i);
        assert DecidesAt(e, items, r, s, i + 1);
      }
      if i :| 0 < i < |items| && DecidesAt(e, items, r, s, i) {
        assert Column(e, r, items[0].key) == Column(e, s, items[0].key);
        assert DecidesAt(e, items[1..], r, s, i - 1);
      }
    }
  }

  ghost predicate DecidesAt(e: Engine, items: seq<OrderItem>, r: Row, s: Row, i: nat)
    requires i < |items|
  {
    && (forall j | 0 <= j < i :: Column(e, r, items[j].key) == Column(e, s, items[j].key))
    && Precedes(e, items[i], Column(e, r, items[i].key), Column(e, s, items[i].key))
  }
}
