/** Last-writer-wins metadata: client time, then replica id, then operation id, compared as UTF-8 bytes. */
module Lww {
  import opened Bytes

  /** The metadata triple of one write. */
  datatype Stamp = Stamp(clientUpdatedAt: int, replicaId: seq<byte>, operationId: seq<byte>)

  /** Buffer.compare: the first differing byte decides, then the shorter buffer is smaller. */
  function CompareBytes(a: seq<byte>, b: seq<byte>): int {
    if a == [] then if b == [] then 0 else -1
    else if b == [] then 1
    else if a[0] < b[0] then -1
    else if b[0] < a[0] then 1
    else CompareBytes(a[1..], b[1..])
  }

  function CompareStamps(left: Stamp, right: Stamp): int {
    if left.clientUpdatedAt != right.clientUpdatedAt then left.clientUpdatedAt - right.clientUpdatedAt
    else if CompareBytes(left.replicaId, right.replicaId) != 0 then CompareBytes(left.replicaId, right.replicaId)
    else CompareBytes(left.operationId, right.operationId)
  }

  predicate Wins(incoming: Stamp, stored: Stamp) {
    CompareStamps(incoming, stored) > 0
  }

  /** At position k, after equal beginnings, x has a greater byte, or y has ended while x has not. */
  predicate AboveAt(x: seq<byte>, y: seq<byte>, k: nat) {
    k < |x| && k <= |y| && x[..k] == y[..k] && (k == |y| || x[k] > y[k])
  }

  /** The first differing byte of two byte strings decides; a proper prefix is smaller. */
  predicate Above(x: seq<byte>, y: seq<byte>) {
    exists k | 0 <= k < |x| :: AboveAt(x, y, k)
  }

  /** A later client time; at equal times a greater replica id; at equal replicas a greater operation id. */
  predicate Later(a: Stamp, b: Stamp) {
    || a.clientUpdatedAt > b.clientUpdatedAt
    || (a.clientUpdatedAt == b.clientUpdatedAt && Above(a.replicaId, b.replicaId))
    || (a.clientUpdatedAt == b.clientUpdatedAt && a.replicaId == b.replicaId && Above(a.operationId, b.operationId))
  }

  lemma {:induction false} ComparingFindsTheFirstDifference(x: seq<byte>, y: seq<byte>)
    ensures CompareBytes(x, y) > 0 <==> Above(x, y)
  {
    if x != [] && y == [] {
      assert AboveAt(x, y, 0);
    } else if x != [] && x[0] > y[0] {
      assert AboveAt(x, y, 0);
    } else if x != [] && x[0] == y[0] {
      ComparingFindsTheFirstDifference(x[1..], y[1..]);
      if k :| 0 <= k < |x[1..]| && AboveAt(x[1..], y[1..], k) {
        assert x[..k + 1] == [x[0]] + x[1..][..k] && y[..k + 1] == [y[0]] + y[1..][..k];
        assert AboveAt(x, y, k + 1);
      }
      if k :| 0 <= k < |x| && AboveAt(x, y, k) {
        assert k > 0;
        assert x[1..][..k - 1] == x[..k][1..] && y[1..][..k - 1] == y[..k][1..];
        assert AboveAt(x[1..], y[1..], k - 1);
      }
    } else if x != [] {
      assert forall k | 0 < k < |x| && k <= |y| :: x[..k][0] == x[0] && y[..k][0] == y[0];
    }
  }

  /** The later write wins, field by field. */
  lemma LaterWins(a: Stamp, b: Stamp)
    ensures Wins(a, b) <==> Later(a, b)
  {
    ComparingFindsTheFirstDifference(a.replicaId, b.replicaId);
    ComparingFindsTheFirstDifference(a.operationId, b.operationId);
    BytesAreOrdered(a.replicaId, b.replicaId, []);
  }

  lemma {:induction false} BytesAreOrdered(a: seq<byte>, b: seq<byte>, c: seq<byte>)
    ensures CompareBytes(a, b) == 0 <==> a == b
    ensures CompareBytes(a, b) == -CompareBytes(b, a)
    ensures CompareBytes(a, b) > 0 && CompareBytes(b, c) > 0 ==> CompareBytes(a, c) > 0
  {
    if a != [] && b != [] && c != [] {
      BytesAreOrdered(a[1..], b[1..], c[1..]);
      assert a == [a[0]] + a[1..] && b == [b[0]] + b[1..];
    } else if a != [] && b != [] {
      BytesAreOrdered(a[1..], b[1..], []);
      assert a == [a[0]] + a[1..] && b == [b[0]] + b[1..];
    }
  }

  /** Winning is a strict total order on stamps. */
  lemma WinsIsStrictTotal(a: Stamp, b: Stamp, c: Stamp)
    ensures !Wins(a, a)
    ensures !(Wins(a, b) && Wins(b, a))
    ensures a != b ==> Wins(a, b) || Wins(b, a)
    ensures Wins(a, b) && Wins(b, c) ==> Wins(a, c)
  {
    BytesAreOrdered(a.replicaId, b.replicaId, c.replicaId);
    BytesAreOrdered(b.replicaId, c.replicaId, c.replicaId);
    BytesAreOrdered(a.replicaId, c.replicaId, c.replicaId);
    BytesAreOrdered(a.operationId, b.operationId, c.operationId);
    BytesAreOrdered(b.operationId, c.operationId, c.operationId);
    BytesAreOrdered(a.replicaId, a.replicaId, c.replicaId);
    BytesAreOrdered(a.operationId, a.operationId, c.operationId);
  }
}
