/** Snapshots delivered onto a card that is already stored: the stored row acts as a delivery that came first. */
module CardMergeLaws {
  import opened Text
  import opened Lww
  import opened CardModel
  import opened CardStoreLaws

  /** The card type a snapshot states. */
  predicate StatesType(d: Delivery, cardType: string) {
    d.snapshot.cardType.Some? && NormalizeType(d.snapshot.cardType.value) == cardType
  }

  predicate StatesMetadata(d: Delivery, metadata: Metadata) {
    d.snapshot.metadata == Some(metadata)
  }

  predicate Beats(d: Delivery, stored: Row) { Wins(d.stamp, stored.stamp) }

  /** What the deliveries so far have made of the stored row, if `top` is the newest of them that beats it. */
  ghost predicate MergedInto(row: Row, stored: Row, ds: seq<Delivery>, top: Delivery) {
    && Newest(ds, top) && Beats(top, stored)
    && CarriesSnapshot(row, top)
    && row.createdAt == stored.createdAt && row.workspaceId == stored.workspaceId
    && NormalizeType(row.cardType) == row.cardType
    && (top.snapshot.cardType.Some? ==> StatesType(top, row.cardType))
    && (top.snapshot.metadata.Some? ==> StatesMetadata(top, row.metadata))
    && (row.cardType == NormalizeType(stored.cardType) || exists d :: d in ds && Beats(d, stored) && StatesType(d, row.cardType))
    && (row.metadata == stored.metadata || exists d :: d in ds && Beats(d, stored) && StatesMetadata(d, row.metadata))
  }

  ghost predicate NoneBeats(ds: seq<Delivery>, stored: Row) {
    forall d | d in ds :: !Beats(d, stored)
  }

  ghost predicate Merged(row: Row, stored: Row, ds: seq<Delivery>) {
    if NoneBeats(ds, stored) then row == stored else exists top :: MergedInto(row, stored, ds, top)
  }

  ghost predicate Onto(s: State, ws: nat, id: nat, ds: seq<Delivery>) {
    id in s.rows && s.rows[id].workspaceId == ws && OneCard(ds)
  }

  lemma FirstToBeat(stored: Row, ds: seq<Delivery>, d: Delivery)
    requires NoneBeats(ds, stored) && Beats(d, stored)
    ensures MergedInto(SnapshotOver(stored, d.snapshot, d.stamp, d.now), stored, ds + [d], d)
  {
    hide Trim, Dedupe, NormalizeType;
    forall k | 0 <= k < |ds + [d]| ensures !Wins((ds + [d])[k].stamp, d.stamp) {
      if k < |ds| {
        assert ds[k] in ds && (ds + [d])[k] == ds[k];
        WinsIsStrictTotal(ds[k].stamp, d.stamp, stored.stamp);
      }
      WinsIsStrictTotal(d.stamp, d.stamp, d.stamp);
    }
    hide Wins;
    NormalizeTypeIsIdempotent(stored.cardType);
    NormalizeTypeIsIdempotent(if d.snapshot.cardType.Some? then d.snapshot.cardType.value else "");
    assert d in ds + [d];
  }

  lemma NextMerged(row: Row, stored: Row, ds: seq<Delivery>, top: Delivery, d: Delivery)
    requires MergedInto(row, stored, ds, top)
    ensures MergedInto(if Wins(d.stamp, row.stamp) then SnapshotOver(row, d.snapshot, d.stamp, d.now) else row,
                       stored, ds + [d], if Wins(d.stamp, row.stamp) then d else top)
  {
    hide Trim, Dedupe, NormalizeType, Newest, Wins;
    NewestNext(ds, top, d);
    WinsIsStrictTotal(d.stamp, top.stamp, stored.stamp);
    NormalizeTypeIsIdempotent(row.cardType);
    NormalizeTypeIsIdempotent(if d.snapshot.cardType.Some? then d.snapshot.cardType.value else "");
    assert forall x | x in ds :: x in ds + [d];
    assert d in ds + [d];
  }

  lemma LastDelivery(s: State, ws: nat, id: nat, before: seq<Delivery>, d: Delivery)
    requires var s' := Deliver(s, ws, id, before); id in s'.rows && s'.rows[id].workspaceId == ws
    requires Trim(d.snapshot.frontText) != ""
    ensures var row, s' := Deliver(s, ws, id, before).rows[id], Deliver(s, ws, id, before + [d]);
            && id in s'.rows && s'.rows[id].workspaceId == ws
            && s'.rows[id] == if Wins(d.stamp, row.stamp) then SnapshotOver(row, d.snapshot, d.stamp, d.now) else row
  {
    hide Trim, Dedupe, NormalizeType, Wins;
    assert (before + [d])[..|before|] == before;
  }

  lemma OneMore(row: Row, stored: Row, ds: seq<Delivery>, d: Delivery)
    requires Merged(row, stored, ds)
    ensures Merged(if Wins(d.stamp, row.stamp) then SnapshotOver(row, d.snapshot, d.stamp, d.now) else row, stored, ds + [d])
  {
    hide Wins, MergedInto, SnapshotOver;
    var all := ds + [d];
    assert forall x | x in ds :: x in all;
    assert d in all;
    if NoneBeats(ds, stored) {
      if Beats(d, stored) {
        FirstToBeat(stored, ds, d);
        assert !NoneBeats(all, stored);
      } else {
        assert NoneBeats(all, stored);
      }
    } else {
      var top :| MergedInto(row, stored, ds, top);
      NextMerged(row, stored, ds, top, d);
      assert !NoneBeats(all, stored);
    }
  }

  lemma {:induction false} DeliveriesMerge(s: State, ws: nat, id: nat, ds: seq<Delivery>)
    requires Onto(s, ws, id, ds)
    ensures var s' := Deliver(s, ws, id, ds);
            && id in s'.rows && s'.rows[id].workspaceId == ws && Merged(s'.rows[id], s.rows[id], ds)
    decreases |ds|
  {
    if ds != [] {
      hide Trim, Wins, Merged, SnapshotOver, Deliver;
      var n := |ds| - 1;
      DeliveriesMerge(s, ws, id, ds[..n]);
      LastDelivery(s, ws, id, ds[..n], ds[n]);
      OneMore(Deliver(s, ws, id, ds[..n]).rows[id], s.rows[id], ds[..n], ds[n]);
      assert ds == ds[..n] + [ds[n]];
    }
  }

  /** When order cannot matter: the newest snapshot states its type, or all those that beat the stored row and state
      one state the stored one; likewise its metadata. */
  ghost predicate OrderFreeOnto(stored: Row, ds: seq<Delivery>, newest: Delivery) {
    && (newest.snapshot.cardType.Some?
        || forall d | d in ds && Beats(d, stored) && d.snapshot.cardType.Some? ::
             NormalizeType(d.snapshot.cardType.value) == NormalizeType(stored.cardType))
    && (newest.snapshot.metadata.Some?
        || forall d | d in ds && Beats(d, stored) && d.snapshot.metadata.Some? :: d.snapshot.metadata.value == stored.metadata)
  }

  /** All columns but the server clock's updatedAt. */
  function Lasting(row: Row): Row { row.(updatedAt := 0) }

  ghost predicate ConvergesOnto(s: State, ws: nat, id: nat, ds: seq<Delivery>) {
    forall a, b | SameDeliveries(a, ds) && SameDeliveries(b, ds) ::
      id in Deliver(s, ws, id, a).rows && id in Deliver(s, ws, id, b).rows
      && Lasting(Deliver(s, ws, id, a).rows[id]) == Lasting(Deliver(s, ws, id, b).rows[id])
  }

  lemma {:induction false} SetFacts(a: seq<Delivery>, ds: seq<Delivery>)
    requires SameDeliveries(a, ds) && OneCard(ds)
    ensures OneCard(a)
  {
    forall k | 0 <= k < |a| ensures a[k] in ds {
      assert a[k] in a;
    }
  }

  /** The outcome of any order of an order-free set: the newest snapshot's columns over the stored row, creation time
      included; or the stored row itself where nothing beats it. */
  lemma OntoOutcome(s: State, ws: nat, id: nat, ds: seq<Delivery>, a: seq<Delivery>, newest: Delivery)
    requires Onto(s, ws, id, ds) && SameDeliveries(a, ds) && Newest(ds, newest)
    requires Beats(newest, s.rows[id]) ==> OrderFreeOnto(s.rows[id], ds, newest)
    ensures var s', stored := Deliver(s, ws, id, a), s.rows[id];
            && id in s'.rows
            && Lasting(s'.rows[id]) ==
               Lasting(if Beats(newest, stored) then SnapshotOver(stored, newest.snapshot, newest.stamp, 0) else stored)
  {
    hide Trim, Dedupe, NormalizeType, Wins;
    var stored := s.rows[id];
    SetFacts(a, ds);
    DeliveriesMerge(s, ws, id, a);
    if NoneBeats(a, stored) {
      assert newest in a;
    } else {
      var row := Deliver(s, ws, id, a).rows[id];
      var top :| MergedInto(row, stored, a, top);
      SameSetFacts(a, ds, newest);
      NewestIsUnique(a, a, top, newest);
      assert top.stamp == newest.stamp && top.snapshot == newest.snapshot;
    }
  }

  /** Convergence onto a stored card, exactly: every order and duplication of a set of snapshots leaves the same card,
      creation time included, if and only if nothing in it beats the stored row or the set is order-free over it. */
  lemma ConvergesOntoExactlyWhenOrderFree(s: State, ws: nat, id: nat, ds: seq<Delivery>, newest: Delivery)
    requires Onto(s, ws, id, ds) && Newest(ds, newest)
    ensures ConvergesOnto(s, ws, id, ds) <==>
            (Beats(newest, s.rows[id]) ==> OrderFreeOnto(s.rows[id], ds, newest))
  {
    hide Trim, Dedupe, NormalizeType, Wins, Deliver, SnapshotOver, OrderFreeOnto;
    var stored := s.rows[id];
    if Beats(newest, stored) && !OrderFreeOnto(stored, ds, newest) {
      var other := ADissenter(stored, ds, newest);
      TwoOrdersOnto(s, ws, id, ds, newest, other);
      RowsDiffer(stored, newest, other);
      var a, b := [newest] + ds, [other, newest] + ds;
      assert SameDeliveries(a, ds) && SameDeliveries(b, ds);
    } else {
      forall a, b | SameDeliveries(a, ds) && SameDeliveries(b, ds)
        ensures id in Deliver(s, ws, id, a).rows && id in Deliver(s, ws, id, b).rows
        ensures Lasting(Deliver(s, ws, id, a).rows[id]) == Lasting(Deliver(s, ws, id, b).rows[id])
      {
        OntoOutcome(s, ws, id, ds, a, newest);
        OntoOutcome(s, ws, id, ds, b, newest);
      }
    }
  }

  ghost predicate Dissents(stored: Row, newest: Delivery, other: Delivery) {
    || (newest.snapshot.cardType.None? && other.snapshot.cardType.Some?
        && NormalizeType(other.snapshot.cardType.value) != NormalizeType(stored.cardType))
    || (newest.snapshot.metadata.None? && other.snapshot.metadata.Some? && other.snapshot.metadata.value != stored.metadata)
  }

  lemma ADissenter(stored: Row, ds: seq<Delivery>, newest: Delivery) returns (other: Delivery)
    requires OneCard(ds) && Newest(ds, newest) && !OrderFreeOnto(stored, ds, newest)
    ensures other in ds && Beats(other, stored) && Dissents(stored, newest, other) && other.stamp != newest.stamp
  {
    hide NormalizeType, Wins;
    var d :| d in ds && Beats(d, stored) && Dissents(stored, newest, d);
    other := d;
    var k :| 0 <= k < |ds| && ds[k] == other;
    var m :| 0 <= m < |ds| && ds[m] == newest;
    if other.stamp == newest.stamp {
      assert ds[k].snapshot == ds[m].snapshot;
    }
  }

  lemma TwoOrdersOnto(s: State, ws: nat, id: nat, ds: seq<Delivery>, newest: Delivery, other: Delivery)
    requires Onto(s, ws, id, ds) && Newest(ds, newest) && other in ds && other.stamp != newest.stamp
    requires Beats(newest, s.rows[id]) && Beats(other, s.rows[id])
    ensures var a, b, stored := [newest] + ds, [other, newest] + ds, s.rows[id];
            && SameDeliveries(a, ds) && SameDeliveries(b, ds)
            && id in Deliver(s, ws, id, a).rows && id in Deliver(s, ws, id, b).rows
            && Deliver(s, ws, id, a).rows[id] == SnapshotOver(stored, newest.snapshot, newest.stamp, newest.now)
            && Deliver(s, ws, id, b).rows[id] ==
               SnapshotOver(SnapshotOver(stored, other.snapshot, other.stamp, other.now),
                            newest.snapshot, newest.stamp, newest.now)
  {
    hide Trim, Dedupe, NormalizeType, Wins;
    var stored := s.rows[id];
    WinsIsStrictTotal(newest.stamp, other.stamp, newest.stamp);
    var k :| 0 <= k < |ds| && ds[k] == other;
    var m :| 0 <= m < |ds| && ds[m] == newest;
    var one, two := [newest], [other, newest];
    assert one[..0] == [] && two[..1] == [other] && [other][..0] == [];
    assert Deliver(s, ws, id, []) == s;
    assert Deliver(s, ws, id, [other]).rows[id] == SnapshotOver(stored, other.snapshot, other.stamp, other.now);
    assert Deliver(s, ws, id, one).rows[id] == SnapshotOver(stored, newest.snapshot, newest.stamp, newest.now);
    LosersChangeNothing(s, ws, id, one, ds, newest);
    LosersChangeNothing(s, ws, id, two, ds, newest);
  }

  lemma RowsDiffer(stored: Row, newest: Delivery, other: Delivery)
    requires Dissents(stored, newest, other)
    ensures Lasting(SnapshotOver(stored, newest.snapshot, newest.stamp, newest.now)) !=
            Lasting(SnapshotOver(SnapshotOver(stored, other.snapshot, other.stamp, other.now),
                                 newest.snapshot, newest.stamp, newest.now))
  {
    hide Trim, Dedupe, NormalizeType;
    if other.snapshot.cardType.Some? {
      NormalizeTypeIsIdempotent(other.snapshot.cardType.value);
    }
  }

  /** Replaying a snapshot already delivered onto a stored card changes nothing. */
  lemma ReplayOntoIsNoOp(s: State, ws: nat, id: nat, ds: seq<Delivery>, k: nat)
    requires Onto(s, ws, id, ds) && k < |ds|
    ensures var op := Upsert(id, ds[k].snapshot, ds[k].stamp, ds[k].now);
            var o := Apply(Deliver(s, ws, id, ds), ws, op);
            o.state == Deliver(s, ws, id, ds) && o.result.Ok? && !o.result.value.applied
  {
    hide Trim, Dedupe, NormalizeType, Wins, Deliver;
    DeliveriesMerge(s, ws, id, ds);
    assert ds[k] in ds;
  }
}
