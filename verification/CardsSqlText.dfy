/** The clauses as the service writes them: words joined by AND and OR, with parentheses exactly where the
    service puts them. Reading the words back by SQL's precedence gives the meaning of the clause. */
module CardsSqlText {
  import opened Text
  import opened CardsSql
  import opened CardsQuery

  /** A word of the clause text; a leaf is one comparison such as `sort_due_at < $3`. */
  datatype Word = Open | Close | AndWord | OrWord | Leaf(clause: Clause)

  /** Every AND and OR list has members. */
  predicate NoEmptyLists(c: Clause) {
    match c
    case AllOf(parts) => parts != [] && forall p | p in parts :: NoEmptyLists(p)
    case AnyOf(parts) => parts != [] && forall p | p in parts :: NoEmptyLists(p)
    case _ => true
  }

  /** As an operand of AND: lists go into parentheses. */
  function WriteFactor(c: Clause): seq<Word>
    decreases c, 1
  {
    match c
    case AllOf(parts) => [Open] + WriteAnds(parts) + [Close]
    case AnyOf(parts) => [Open] + WriteOrs(parts) + [Close]
    case _ => [Leaf(c)]
  }

  /** As an operand of OR, or alone: an AND list stands bare. */
  function WriteTerm(c: Clause): seq<Word>
    decreases c, 2
  {
    match c
    case AllOf(parts) => WriteAnds(parts)
    case _ => WriteFactor(c)
  }

  /** `parts.join(" AND ")` */
  function WriteAnds(parts: seq<Clause>): seq<Word>
    decreases parts, 0
  {
    if parts == [] then []
    else if |parts| == 1 then WriteFactor(parts[0])
    else WriteFactor(parts[0]) + [AndWord] + WriteAnds(parts[1..])
  }

  /** `parts.join(" OR ")` */
  function WriteOrs(parts: seq<Clause>): seq<Word>
    decreases parts, 0
  {
    if parts == [] then []
    else if |parts| == 1 then WriteTerm(parts[0])
    else WriteTerm(parts[0]) + [OrWord] + WriteOrs(parts[1..])
  }

  /** The value of the longest operand at the front of some words, and the words after it. */
  datatype Reading = Reading(value: Truth, rest: seq<Word>)

  /** What the clause is evaluated on. */
  datatype Context = Context(e: Engine, params: seq<Value>, row: Row)

  function Meaning(x: Context, c: Clause): Truth { Eval(x.e, c, x.params, x.row) }

  function ReadFactor(x: Context, words: seq<Word>): (r: Option<Reading>)
    ensures r.Some? ==> |r.value.rest| < |words|
    decreases |words|, 0
  {
    if words == [] then None
    else
      match words[0]
      case Leaf(c) => Some(Reading(Meaning(x, c), words[1..]))
      case Open =>
        (match ReadExpression(x, words[1..])
         case None => None
         case Some(inner) =>
           if inner.rest != [] && inner.rest[0] == Close then Some(Reading(inner.value, inner.rest[1..])) else None)
      case _ => None
  }

  /** AND binds tighter than OR. */
  function ReadTerm(x: Context, words: seq<Word>): (r: Option<Reading>)
    ensures r.Some? ==> |r.value.rest| < |words|
    decreases |words|, 1
  {
    match ReadFactor(x, words)
    case None => None
    case Some(first) =>
      if first.rest == [] || first.rest[0] != AndWord then Some(first)
      else
        match ReadTerm(x, first.rest[1..])
        case None => None
        case Some(others) => Some(Reading(And(first.value, others.value), others.rest))
  }

  function ReadExpression(x: Context, words: seq<Word>): (r: Option<Reading>)
    ensures r.Some? ==> |r.value.rest| < |words|
    decreases |words|, 2
  {
    match ReadTerm(x, words)
    case None => None
    case Some(first) =>
      if first.rest == [] || first.rest[0] != OrWord then Some(first)
      else
        match ReadExpression(x, first.rest[1..])
        case None => None
        case Some(others) => Some(Reading(Or(first.value, others.value), others.rest))
  }

  predicate NotNext(word: Word, rest: seq<Word>) { rest == [] || rest[0] != word }

  lemma ListMeanings(x: Context, parts: seq<Clause>)
    requires parts != []
    ensures Meaning(x, AllOf(parts)) == And(Meaning(x, parts[0]), Meaning(x, AllOf(parts[1..])))
    ensures Meaning(x, AnyOf(parts)) == Or(Meaning(x, parts[0]), Meaning(x, AnyOf(parts[1..])))
    ensures |parts| == 1 ==> Meaning(x, AllOf(parts)) == Meaning(x, parts[0]) == Meaning(x, AnyOf(parts))
  {
    var others := parts[1..];
    assert Meaning(x, AllOf(parts)) == EvalAll(x.e, parts, x.params, x.row);
    assert Meaning(x, AllOf(others)) == EvalAll(x.e, others, x.params, x.row);
    assert Meaning(x, AnyOf(parts)) == EvalAny(x.e, parts, x.params, x.row);
    assert Meaning(x, AnyOf(others)) == EvalAny(x.e, others, x.params, x.row);
    if |parts| == 1 {
      assert others == [];
    }
  }

  lemma {:induction false} FactorReadsBack(x: Context, c: Clause, rest: seq<Word>)
    requires NoEmptyLists(c)
    ensures ReadFactor(x, WriteFactor(c) + rest) == Some(Reading(Meaning(x, c), rest))
    decreases c, 1
  {
    var words := WriteFactor(c) + rest;
    match c {
      case AllOf(parts) =>
        assert words[1..] == WriteAnds(parts) + ([Close] + rest);
        AndsReadBack(x, parts, [Close] + rest);
        assert ([Close] + rest)[1..] == rest;
      case AnyOf(parts) =>
        assert words[1..] == WriteOrs(parts) + ([Close] + rest);
        OrsReadBack(x, parts, [Close] + rest);
        assert ([Close] + rest)[1..] == rest;
      case _ =>
        assert words[1..] == rest;
    }
  }

  lemma {:induction false} TermReadsBack(x: Context, c: Clause, rest: seq<Word>)
    requires NoEmptyLists(c) && NotNext(AndWord, rest)
    ensures ReadTerm(x, WriteTerm(c) + rest) == Some(Reading(Meaning(x, c), rest))
    decreases c, 2
  {
    if c.AllOf? {
      AndsReadBack(x, c.parts, rest);
    } else {
      FactorReadsBack(x, c, rest);
    }
  }

  lemma {:induction false} AndsReadBack(x: Context, parts: seq<Clause>, rest: seq<Word>)
    requires parts != [] && (forall p | p in parts :: NoEmptyLists(p)) && NotNext(AndWord, rest)
    ensures ReadTerm(x, WriteAnds(parts) + rest) == Some(Reading(Meaning(x, AllOf(parts)), rest))
    ensures NotNext(OrWord, rest) ==> ReadExpression(x, WriteAnds(parts) + rest) == Some(Reading(Meaning(x, AllOf(parts)), rest))
    decreases parts, 0
  {
    hide Meaning, NoEmptyLists;
    ListMeanings(x, parts);
    if |parts| == 1 {
      FactorReadsBack(x, parts[0], rest);
    } else {
      var others := WriteAnds(parts[1..]) + rest;
      assert WriteAnds(parts) + rest == WriteFactor(parts[0]) + ([AndWord] + others);
      FactorReadsBack(x, parts[0], [AndWord] + others);
      AndsReadBack(x, parts[1..], rest);
      assert ([AndWord] + others)[1..] == others;
    }
  }

  lemma {:induction false} OrsReadBack(x: Context, parts: seq<Clause>, rest: seq<Word>)
    requires parts != [] && (forall p | p in parts :: NoEmptyLists(p)) && NotNext(AndWord, rest) && NotNext(OrWord, rest)
    ensures ReadExpression(x, WriteOrs(parts) + rest) == Some(Reading(Meaning(x, AnyOf(parts)), rest))
    decreases parts, 0
  {
    hide Meaning, NoEmptyLists, ReadTerm;
    ListMeanings(x, parts);
    if |parts| == 1 {
      TermReadsBack(x, parts[0], rest);
    } else {
      var others := WriteOrs(parts[1..]) + rest;
      assert WriteOrs(parts) + rest == WriteTerm(parts[0]) + ([OrWord] + others);
      TermReadsBack(x, parts[0], [OrWord] + others);
      OrsReadBack(x, parts[1..], rest);
      assert ([OrWord] + others)[1..] == others;
    }
  }

  lemma WhereHasNoEmptyLists(q: Query)
    requires Valid(q)
    ensures NoEmptyLists(Where(q))
  {
    var filter := FilterPart(q.tags, 1);
    var parts := [InWorkspace(1), NotDeleted] + Listed(filter.clause) + Listed(SearchPart(q.tokens, 1 + |filter.params|).clause);
    if q.tokens.Some? {
      var clauses := TokenClauses(q.tokens.value, 1 + |filter.params|);
      forall c | c in clauses ensures NoEmptyLists(c) {
        var k :| 0 <= k < |clauses| && clauses[k] == c;
        assert NoEmptyLists(FrontBackLike(2 + |filter.params| + k)) && NoEmptyLists(SomeTagLike(2 + |filter.params| + k));
      }
      assert clauses != [];
    }
    forall p | p in parts ensures NoEmptyLists(p) {
    }
  }

  lemma CursorHasNoEmptyLists(sorts: seq<Sort>, values: seq<Value>, start: nat)
    requires |sorts| == |values| > 0
    ensures NoEmptyLists(AnyOf(CursorGroups(sorts, values, start)))
  {
    var groups := CursorGroups(sorts, values, start);
    forall g | g in groups ensures NoEmptyLists(g) {
      var i :| 0 <= i < |groups| && groups[i] == g;
      var parts := Equalities(sorts[..i], start) + [CursorComparison(sorts[i], start + i + 1, values[i])];
      assert g == AllOf(parts);
      forall p | p in parts ensures NoEmptyLists(p) {
        ComparisonHasNoEmptyLists(sorts[i], start + i + 1, values[i]);
      }
    }
  }

  lemma ComparisonHasNoEmptyLists(sort: Sort, k: nat, v: Value)
    ensures NoEmptyLists(CursorComparison(sort, k, v))
  {
    var parts := [Below(sort.key, k), IsNull(sort.key)];
    forall p | p in parts ensures NoEmptyLists(p) {
    }
  }

  /** The written statement means its clauses: the WHERE words and the cursor words, read by SQL's precedence,
      have the values the clauses have, for every row and all parameters. */
  lemma TextMeansClause(q: Query, cursor: Cursor, x: Context)
    requires Valid(q) && Compile(q, cursor).Ok?
    ensures var s := Compile(q, cursor).value;
            && ReadExpression(x, WriteTerm(s.where)) == Some(Reading(Meaning(x, s.where), []))
            && (s.cursor.Some? ==> ReadExpression(x, WriteFactor(s.cursor.value)) == Some(Reading(Meaning(x, s.cursor.value), [])))
  {
    WhereHasNoEmptyLists(q);
    TermReadsBack(x, Where(q), []);
    assert WriteTerm(Where(q)) + [] == WriteTerm(Where(q));
    if cursor.Some? {
      var clause := Compile(q, cursor).value.cursor.value;
      CursorHasNoEmptyLists(EffectiveSorts(q.sorts), cursor.value, |WhereParams(q)|);
      FactorReadsBack(x, clause, []);
      assert WriteFactor(clause) + [] == WriteFactor(clause);
    }
  }
}
