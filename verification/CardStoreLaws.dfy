/** What every run of card mutations keeps, and how concurrent edits of one card converge. */
module CardStoreLaws {
  import opened Text
  import opened Lww
  import opened CardModel

  /** The newest log entry of every card carries its current stamp. */
  ghost predicate LogIsCurrent(rows: map<nat, Row>, log: seq<Change>) {
    forall id | id in rows ::
      && Latest(log, id).Some?
      && Latest(log, id).value.stamp == rows[id].stamp
      && Latest(log, id).value.workspaceId == rows[id].workspaceId
  }

  /** Change ids strictly increase and stay below the next one; every entry is about a stored card. */
  ghost predicate LogIsOrdered(rows: map<nat, Row>, log: seq<Change>, nextChange: nat) {
    && (forall i, j | 0 <= i < j < |log| :: log[i].changeId < log[j].changeId)
    && (forall i | 0 <= i < |log| :: log[i].changeId < nextChange && log[i].cardId in rows)
  }

  /** Every card has exactly one creation fact. */
  ghost predicate OneFactEach(rows: map<nat, Row>, facts: seq<nat>) {
    && (forall i, j | 0 <= i < j < |facts| :: facts[i] != facts[j])
    && (forall id :: id in rows <==> id in facts)
  }

  ghost predicate Consistent(s: State) {
    LogIsCurrent(s.rows, s.log) && LogIsOrdered(s.rows, s.log, s.nextChange) && OneFactEach(s.rows, s.facts)
  }

  /** What no mutation may undo: rows stay, in their workspace, with their creation time; logs and facts only grow. */
  ghost predicate Extends(s: State, s': State) {
    && (forall id | id in s.rows ::
          id in s'.rows
          && s'.rows[id].workspaceId == s.rows[id].workspaceId
          && s'.rows[id].createdAt == s.rows[id].createdAt)
    && s.log <= s'.log && s.facts <= s'.facts && s.nextChange <= s'.nextChange
  }

  function Entries(log: seq<Change>, id: nat): nat {
    if log == [] then 0
    else Entries(log[..|log| - 1], id) + (if log[|log| - 1].cardId == id then 1 else 0)
  }

  lemma LogAppend(log: seq<Change>, change: Change, id: nat)
    ensures Latest(log + [change], id) == if change.cardId == id then Some(change) else Latest(log, id)
    ensures Entries(log + [change], id) == Entries(log, id) + (if change.cardId == id then 1 else 0)
  {
    assert (log + [change])[..|log|] == log;
  }

  lemma WriteKeepsLog(s: State, id: nat, row: Row)
    requires LogIsCurrent(s.rows, s.log) && LogIsOrdered(s.rows, s.log, s.nextChange)
    ensures var s' := Write(s, id, row);
            LogIsCurrent(s'.rows, s'.log) && LogIsOrdered(s'.rows, s'.log, s'.nextChange)
  {
    hide Latest;
    var change := Change(s.nextChange, row.workspaceId, id, row.stamp);
    forall k ensures Latest(s.log + [change], k) == if id == k then Some(change) else Latest(s.log, k) {
      LogAppend(s.log, change, k);
    }
  }

  lemma WriteKeeps(s: State, id: nat, row: Row)
    requires Consistent(s) && id in s.rows
    requires row.workspaceId == s.rows[id].workspaceId && row.createdAt == s.rows[id].createdAt
    ensures Consistent(Write(s, id, row)) && Extends(s, Write(s, id, row))
  {
    hide LogIsCurrent, LogIsOrdered;
    WriteKeepsLog(s, id, row);
  }

  lemma InsertKeeps(s: State, id: nat, row: Row)
    requires Consistent(s) && id !in s.rows
    ensures Consistent(Inserted(s, id, row)) && Extends(s, Inserted(s, id, row))
  {
    hide LogIsCurrent, LogIsOrdered;
    WriteKeepsLog(s, id, row);
    forall k ensures k in s.facts + [id] <==> k in s.facts || k == id {
    }
  }

  predicate Applied(o: Outcome) { o.result.Ok? && o.result.value.applied }

  /** One mutation: consistency and history are kept; an applied write adds one log entry, for its card,
      carrying its stamp; any other outcome leaves the state as it was. */
  lemma ApplyKeeps(s: State, ws: nat, op: Op)
    requires Consistent(s)
    ensures var o := Apply(s, ws, op);
            && Consistent(o.state) && Extends(s, o.state)
            && (Applied(o) ==> o.state.log == s.log + [Change(s.nextChange, ws, op.cardId, op.stamp)]
                               && o.state.rows[op.cardId] == o.result.value.card)
            && (!Applied(o) ==> o.state == s)
            && (o.result.Ok? ==> op.cardId in o.state.rows
                                 && o.result.value.changeId == LatestId(o.state.log, op.cardId))
  {
    hide Latest, Consistent, Extends;
    var id, o := op.cardId, Apply(s, ws, op);
    ExtendsItself(s);
    if Applied(o) {
      LogAppend(s.log, Change(s.nextChange, ws, id, op.stamp), id);
      if id in s.rows {
        WriteKeeps(s, id, o.result.value.card);
      } else {
        InsertKeeps(s, id, o.result.value.card);
      }
    }
  }

  lemma ExtendsItself(s: State)
    ensures Extends(s, s)
  {
  }

  lemma ExtendsIsTransitive(a: State, b: State, c: State)
    requires Extends(a, b) && Extends(b, c)
    ensures Extends(a, c)
  {
  }

  /** How many of the committed writes went to card `id`. */
  function AppliedTo(ops: seq<Op>, receipts: seq<Receipt>, id: nat): nat
    requires |ops| == |receipts|
  {
    if ops == [] then 0
    else
      AppliedTo(ops[..|ops| - 1], receipts[..|ops| - 1], id) +
      (if receipts[|ops| - 1].applied && ops[|ops| - 1].cardId == id then 1 else 0)
  }

  lemma {:induction false} ApplyAllKeeps(s: State, ws: nat, ops: seq<Op>, id: nat)
    requires Consistent(s)
    ensures var b := ApplyAll(s, ws, ops);
            && Consistent(b.state) && Extends(s, b.state)
            && (b.result.Ok? ==> Entries(b.state.log, id) == Entries(s.log, id) + AppliedTo(ops, b.result.value, id))
  {
    hide Consistent, Extends, Apply;
    ExtendsItself(s);
    if ops != [] {
      var ops', op := ops[..|ops| - 1], ops[|ops| - 1];
      ApplyAllKeeps(s, ws, ops', id);
      var before := ApplyAll(s, ws, ops');
      if before.result.Ok? {
        ApplyKeeps(before.state, ws, op);
        var o := Apply(before.state, ws, op);
        ExtendsIsTransitive(s, before.state, o.state);
        LogAppend(before.state.log, Change(before.state.nextChange, ws, op.cardId, op.stamp), id);
        if o.result.Ok? {
          assert (before.result.value + [o.result.value])[..|ops'|] == before.result.value;
        }
      }
    }
  }

  lemma RollbackKeeps(s: State, b: State)
    requires Consistent(s) && Extends(s, b)
    ensures var r := s.(nextChange := b.nextChange); Consistent(r) && Extends(s, r)
  {
  }

  /** A transaction: its workspace and the mutations it runs. */
  datatype Transaction = Transaction(ws: nat, ops: seq<Op>)

  /** A whole run of transactions, some of which may fail. */
  function Run(s: State, transactions: seq<Transaction>): State {
    if transactions == [] then s
    else
      var last := transactions[|transactions| - 1];
      Transact(Run(s, transactions[..|transactions| - 1]), last.ws, last.ops).state
  }

  function AppliedInRun(s: State, transactions: seq<Transaction>, id: nat): nat {
    if transactions == [] then 0
    else
      var n := |transactions| - 1;
      var b := Transact(Run(s, transactions[..n]), transactions[n].ws, transactions[n].ops);
      AppliedInRun(s, transactions[..n], id) +
      (if b.result.Ok? then AppliedTo(transactions[n].ops, b.result.value, id) else 0)
  }

  /** Over every run, with rollbacks anywhere: each card's newest log entry carries its current stamp, its log
      holds one entry per applied write, rows are never removed or moved, change ids never repeat, and each card
      id has exactly one creation fact. */
  lemma {:induction false} EveryRunIsConsistent(s: State, transactions: seq<Transaction>, id: nat)
    requires Consistent(s)
    ensures Consistent(Run(s, transactions)) && Extends(s, Run(s, transactions))
    ensures Entries(Run(s, transactions).log, id) == Entries(s.log, id) + AppliedInRun(s, transactions, id)
  {
    hide Consistent, Extends, ApplyAll, AppliedTo, Entries;
    ExtendsItself(s);
    if transactions != [] {
      var n := |transactions| - 1;
      var before, last := Run(s, transactions[..n]), transactions[n];
      EveryRunIsConsistent(s, transactions[..n], id);
      ApplyAllKeeps(before, last.ws, last.ops, id);
      RollbackKeeps(before, ApplyAll(before, last.ws, last.ops).state);
      ExtendsIsTransitive(s, before, Run(s, transactions));
    }
  }

  lemma EmptyStoreIsConsistent()
    ensures Consistent(State(map[], [], 1, []))
  {
  }

  /** One delivery of a card snapshot. */
  datatype Delivery = Delivery(snapshot: Snapshot, stamp: Stamp, now: int)

  function Deliver(s: State, ws: nat, id: nat, ds: seq<Delivery>): State {
    if ds == [] then s
    else
      var d := ds[|ds| - 1];
      Apply(Deliver(s, ws, id, ds[..|ds| - 1]), ws, Upsert(id, d.snapshot, d.stamp, d.now)).state
  }

  /** Deliveries of one card: acceptable snapshots, and one snapshot per stamp however often it is delivered. */
  ghost predicate OneCard(ds: seq<Delivery>) {
    && (forall k | 0 <= k < |ds| :: Trim(ds[k].snapshot.frontText) != "")
    && (forall j, k | 0 <= j < |ds| && 0 <= k < |ds| && ds[j].stamp == ds[k].stamp :: ds[j].snapshot == ds[k].snapshot)
  }

  ghost predicate Newest(ds: seq<Delivery>, d: Delivery) {
    d in ds && forall k | 0 <= k < |ds| :: !Wins(ds[k].stamp, d.stamp)
  }

  /** The card type and metadata a snapshot gives a card that it creates. */
  function TypeOf(d: Delivery): string { TypeOr(d.snapshot.cardType, "basic") }

  function MetadataOf(d: Delivery): Metadata {
    MetadataOr(d.snapshot.metadata, DefaultMetadata(d.snapshot.createdAt))
  }

  /** Every column a snapshot always carries. */
  ghost predicate CarriesSnapshot(row: Row, d: Delivery) {
    && row.stamp == d.stamp
    && row.frontText == Trim(d.snapshot.frontText) && row.backText == Trim(d.snapshot.backText)
    && row.tags == Dedupe(d.snapshot.tags) && row.schedule == d.snapshot.schedule
    && row.deletedAt == d.snapshot.deletedAt
  }

  lemma NormalizeTypeIsIdempotent(t: string)
    ensures NormalizeType(NormalizeType(t)) == NormalizeType(t)
  {
    var _, _ := TrimMargins(t);
    SolidTrimsToItself(Trim(t));
    SolidTrimsToItself("basic");
  }

  /** What the deliveries so far have made of the card. */
  ghost predicate Reflects(row: Row, ws: nat, ds: seq<Delivery>, newest: Delivery) {
    && ds != []
    && row.workspaceId == ws
    && CarriesSnapshot(row, newest)
    && row.createdAt == ds[0].snapshot.createdAt
    && NormalizeType(row.cardType) == row.cardType
    && (newest.snapshot.cardType.Some? ==> row.cardType == TypeOf(newest))
    && (newest.snapshot.metadata.Some? ==> row.metadata == MetadataOf(newest))
    && (exists k :: 0 <= k < |ds| && row.cardType == TypeOf(ds[k]))
    && (exists k :: 0 <= k < |ds| && row.metadata == MetadataOf(ds[k]))
  }

  lemma FirstDelivery(s: State, ws: nat, id: nat, d: Delivery)
    requires id !in s.rows && Trim(d.snapshot.frontText) != ""
    ensures var s' := Deliver(s, ws, id, [d]);
            id in s'.rows && s'.rows[id] == SnapshotRow(ws, d.snapshot, d.stamp, d.now)
  {
    hide SnapshotRow, Trim;
    assert [d][..0] == [];
    assert Deliver(s, ws, id, []) == s;
  }

  lemma CreatedRowReflects(ws: nat, d: Delivery)
    ensures Reflects(SnapshotRow(ws, d.snapshot, d.stamp, d.now), ws, [d], d)
  {
    hide Trim, Dedupe, NormalizeType;
    TypeSurvives(d);
    assert TypeOf([d][0]) == TypeOf(d) && MetadataOf([d][0]) == MetadataOf(d);
  }

  lemma NewestNext(before: seq<Delivery>, prior: Delivery, d: Delivery)
    requires Newest(before, prior)
    ensures Newest(before + [d], if Wins(d.stamp, prior.stamp) then d else prior)
  {
    hide Wins;
    var ds := before + [d];
    assert ds[|before|] == d && prior in ds;
    forall k | 0 <= k < |ds| ensures !Wins(ds[k].stamp, if Wins(d.stamp, prior.stamp) then d.stamp else prior.stamp) {
      WinsIsStrictTotal(ds[k].stamp, d.stamp, prior.stamp);
      WinsIsStrictTotal(d.stamp, prior.stamp, d.stamp);
    }
  }

  lemma {:induction false} DeliveriesReflect(s: State, ws: nat, id: nat, ds: seq<Delivery>) returns (newest: Delivery)
    requires id !in s.rows && ds != [] && OneCard(ds)
    ensures Newest(ds, newest)
    ensures var s' := Deliver(s, ws, id, ds); id in s'.rows && Reflects(s'.rows[id], ws, ds, newest)
  {
    hide Trim, Wins, Reflects, SnapshotRow, SnapshotOver, Newest;
    var n := |ds| - 1;
    var d, before := ds[n], ds[..n];
    assert ds == before + [d];
    if n == 0 {
      newest := d;
      assert ds == [d];
      FirstDelivery(s, ws, id, d);
      CreatedRowReflects(ws, d);
      NewestAlone(d);
    } else {
      var prior := DeliveriesReflect(s, ws, id, before);
      var row := Deliver(s, ws, id, before).rows[id];
      newest := if Wins(d.stamp, prior.stamp) then d else prior;
      NewestNext(before, prior, d);
      ReflectsNext(row, ws, ds, prior, newest);
      ReflectsStamp(row, ws, before, prior);
    }
  }

  lemma NewestAlone(d: Delivery)
    ensures Newest([d], d)
  {
    WinsIsStrictTotal(d.stamp, d.stamp, d.stamp);
  }

  lemma ReflectsStamp(row: Row, ws: nat, ds: seq<Delivery>, newest: Delivery)
    requires Reflects(row, ws, ds, newest)
    ensures row.stamp == newest.stamp && row.workspaceId == ws
  {
  }

  lemma BasicIsNormal()
    ensures NormalizeType("basic") == "basic"
  {
    SolidTrimsToItself("basic");
  }

  lemma ReflectsNext(row: Row, ws: nat, ds: seq<Delivery>, prior: Delivery, newest: Delivery)
    requires |ds| > 1 && Reflects(row, ws, ds[..|ds| - 1], prior)
    requires newest == if Wins(ds[|ds| - 1].stamp, prior.stamp) then ds[|ds| - 1] else prior
    ensures var d := ds[|ds| - 1];
            Reflects(if Wins(d.stamp, prior.stamp) then SnapshotOver(row, d.snapshot, d.stamp, d.now) else row, ws, ds, newest)
  {
    hide Trim, Dedupe, NormalizeType, Wins;
    var n := |ds| - 1;
    var d, before := ds[n], ds[..n];
    var i :| 0 <= i < n && row.cardType == TypeOf(before[i]);
    var j :| 0 <= j < n && row.metadata == MetadataOf(before[j]);
    assert row.cardType == TypeOf(ds[i]) && row.metadata == MetadataOf(ds[j]);
    assert TypeOf(ds[n]) == TypeOf(d) && MetadataOf(ds[n]) == MetadataOf(d);
    NormalizeTypeIsIdempotent(if d.snapshot.cardType.Some? then d.snapshot.cardType.value else "basic");
  }

  ghost predicate SameDeliveries(a: seq<Delivery>, b: seq<Delivery>) {
    forall d :: d in a <==> d in b
  }

  /** The columns that must not depend on delivery order: all but createdAt and the server clock's updatedAt. */
  function Converging(row: Row): Row { row.(createdAt := 0, updatedAt := 0) }

  /** When delivery order cannot matter: the newest snapshot states its card type, or all snapshots would create the
      card with the same one; likewise its metadata. */
  ghost predicate OrderFree(ds: seq<Delivery>, newest: Delivery) {
    && (newest.snapshot.cardType.Some? || forall k | 0 <= k < |ds| :: TypeOf(ds[k]) == TypeOf(newest))
    && (newest.snapshot.metadata.Some? || forall k | 0 <= k < |ds| :: MetadataOf(ds[k]) == MetadataOf(newest))
  }

  lemma NewestIsUnique(a: seq<Delivery>, b: seq<Delivery>, d: Delivery, d': Delivery)
    requires SameDeliveries(a, b) && OneCard(a) && Newest(a, d) && Newest(b, d')
    ensures d.stamp == d'.stamp && d.snapshot == d'.snapshot
  {
    assert d in b && d' in a;
    WinsIsStrictTotal(d.stamp, d'.stamp, d.stamp);
  }

  /** The row after any delivery order of an order-free set is the newest snapshot's, createdAt aside. */
  lemma OrderFreeOutcome(s: State, ws: nat, id: nat, ds: seq<Delivery>, newest: Delivery)
    requires id !in s.rows && ds != [] && OneCard(ds) && Newest(ds, newest) && OrderFree(ds, newest)
    ensures var s' := Deliver(s, ws, id, ds);
            && id in s'.rows
            && Converging(s'.rows[id]) == Converging(SnapshotRow(ws, newest.snapshot, newest.stamp, 0))
            && s'.rows[id].createdAt == ds[0].snapshot.createdAt
  {
    hide Trim, Dedupe, NormalizeType, Wins;
    var d := DeliveriesReflect(s, ws, id, ds);
    NewestIsUnique(ds, ds, d, newest);
  }

  /** The card ends the same, createdAt aside, after every delivery order and any duplication of these snapshots. */
  ghost predicate Converges(s: State, ws: nat, id: nat, ds: seq<Delivery>) {
    forall a, b | a != [] && b != [] && SameDeliveries(a, ds) && SameDeliveries(b, ds) ::
      id in Deliver(s, ws, id, a).rows && id in Deliver(s, ws, id, b).rows
      && Converging(Deliver(s, ws, id, a).rows[id]) == Converging(Deliver(s, ws, id, b).rows[id])
  }

  lemma SameSetFacts(a: seq<Delivery>, ds: seq<Delivery>, newest: Delivery)
    requires SameDeliveries(a, ds) && OneCard(ds) && Newest(ds, newest)
    ensures OneCard(a) && Newest(a, newest)
    ensures OrderFree(ds, newest) ==> OrderFree(a, newest)
  {
    forall k | 0 <= k < |a| ensures a[k] in ds {
      assert a[k] in a;
    }
  }

  /** Two orders of the same snapshots that disagree: the newest first, or `other` before it. */
  lemma TwoOrders(s: State, ws: nat, id: nat, ds: seq<Delivery>, newest: Delivery, other: Delivery)
    requires id !in s.rows && OneCard(ds) && Newest(ds, newest) && other in ds
    requires other.stamp != newest.stamp
    ensures var a, b := [newest] + ds, [other, newest] + ds;
            && SameDeliveries(a, ds) && SameDeliveries(b, ds)
            && id in Deliver(s, ws, id, a).rows && id in Deliver(s, ws, id, b).rows
            && Deliver(s, ws, id, a).rows[id] == SnapshotRow(ws, newest.snapshot, newest.stamp, newest.now)
            && Deliver(s, ws, id, b).rows[id] ==
               SnapshotOver(SnapshotRow(ws, other.snapshot, other.stamp, other.now),
                            newest.snapshot, newest.stamp, newest.now)
  {
    hide Trim, Dedupe, NormalizeType, Wins;
    WinsIsStrictTotal(newest.stamp, other.stamp, newest.stamp);
    var k :| 0 <= k < |ds| && ds[k] == other;
    var m :| 0 <= m < |ds| && ds[m] == newest;
    var one, two := [newest], [other, newest];
    assert one[..0] == [] && two[..1] == [other] && [other][..0] == [];
    assert Deliver(s, ws, id, []) == s;
    assert Deliver(s, ws, id, [other]).rows[id] == SnapshotRow(ws, other.snapshot, other.stamp, other.now);
    assert Deliver(s, ws, id, one).rows[id] == SnapshotRow(ws, newest.snapshot, newest.stamp, newest.now);
    LosersChangeNothing(s, ws, id, one, ds, newest);
    LosersChangeNothing(s, ws, id, two, ds, newest);
  }

  lemma {:induction false} LosersChangeNothing(s: State, ws: nat, id: nat, first: seq<Delivery>, ds: seq<Delivery>, newest: Delivery)
    requires forall k | 0 <= k < |ds| :: !Wins(ds[k].stamp, newest.stamp)
    requires var s' := Deliver(s, ws, id, first);
             id in s'.rows && s'.rows[id].stamp == newest.stamp && s'.rows[id].workspaceId == ws
    ensures Deliver(s, ws, id, first + ds) == Deliver(s, ws, id, first)
  {
    hide Wins, Trim;
    if ds == [] {
      assert first + ds == first;
    } else {
      var n := |ds| - 1;
      assert (first + ds)[..|first + ds| - 1] == first + ds[..n];
      LosersChangeNothing(s, ws, id, first, ds[..n], newest);
    }
  }

  /** Convergence, exactly: every order and duplication of a set of snapshots leaves the same card, createdAt aside,
      if and only if the newest snapshot states its type and metadata or all snapshots agree on them. */
  lemma ConvergesExactlyWhenOrderFree(s: State, ws: nat, id: nat, ds: seq<Delivery>, newest: Delivery)
    requires id !in s.rows && ds != [] && OneCard(ds) && Newest(ds, newest)
    ensures Converges(s, ws, id, ds) <==> OrderFree(ds, newest)
  {
    hide Trim, Dedupe, NormalizeType, Wins, Deliver;
    if OrderFree(ds, newest) {
      forall a, b | a != [] && b != [] && SameDeliveries(a, ds) && SameDeliveries(b, ds)
        ensures id in Deliver(s, ws, id, a).rows && id in Deliver(s, ws, id, b).rows
        ensures Converging(Deliver(s, ws, id, a).rows[id]) == Converging(Deliver(s, ws, id, b).rows[id])
      {
        SameSetFacts(a, ds, newest);
        SameSetFacts(b, ds, newest);
        OrderFreeOutcome(s, ws, id, a, newest);
        OrderFreeOutcome(s, ws, id, b, newest);
      }
    } else {
      var other := ADisagreement(ds, newest);
      TwoOrders(s, ws, id, ds, newest, other);
      CreatedRowsDiffer(ws, newest, other);
      var a, b := [newest] + ds, [other, newest] + ds;
      assert a != [] && b != [] && SameDeliveries(a, ds) && SameDeliveries(b, ds);
    }
  }

  ghost predicate Disagree(newest: Delivery, other: Delivery) {
    || (newest.snapshot.cardType.None? && TypeOf(other) != TypeOf(newest))
    || (newest.snapshot.metadata.None? && MetadataOf(other) != MetadataOf(newest))
  }

  lemma ADisagreement(ds: seq<Delivery>, newest: Delivery) returns (other: Delivery)
    requires OneCard(ds) && newest in ds && !OrderFree(ds, newest)
    ensures other in ds && Disagree(newest, other) && other.stamp != newest.stamp
  {
    var m :| 0 <= m < |ds| && ds[m] == newest;
    var k :| 0 <= k < |ds| && Disagree(newest, ds[k]);
    other := ds[k];
    if other.stamp == newest.stamp {
      assert ds[k].snapshot == ds[m].snapshot;
    }
  }

  lemma CreatedRowsDiffer(ws: nat, newest: Delivery, other: Delivery)
    requires Disagree(newest, other)
    ensures Converging(SnapshotRow(ws, newest.snapshot, newest.stamp, newest.now)) !=
            Converging(SnapshotOver(SnapshotRow(ws, other.snapshot, other.stamp, other.now),
                                    newest.snapshot, newest.stamp, newest.now))
  {
    hide Trim, Dedupe;
    TypeSurvives(other);
    var first := SnapshotRow(ws, other.snapshot, other.stamp, other.now);
    assert first.cardType == TypeOf(other) && first.metadata == MetadataOf(other);
  }

  lemma TypeSurvives(d: Delivery)
    ensures NormalizeType(TypeOf(d)) == TypeOf(d)
  {
    NormalizeTypeIsIdempotent(if d.snapshot.cardType.Some? then d.snapshot.cardType.value else "basic");
    BasicIsNormal();
  }

  /** Replaying any delivered snapshot changes nothing. */
  lemma ReplayIsNoOp(s: State, ws: nat, id: nat, ds: seq<Delivery>, k: nat)
    requires id !in s.rows && OneCard(ds) && k < |ds|
    ensures var op := Upsert(id, ds[k].snapshot, ds[k].stamp, ds[k].now);
            var o := Apply(Deliver(s, ws, id, ds), ws, op);
            o.state == Deliver(s, ws, id, ds) && o.result.Ok? && !o.result.value.applied
  {
    hide Trim, Dedupe, NormalizeType, Wins, Deliver;
    var newest := DeliveriesReflect(s, ws, id, ds);
  }
}
