/** Bytes, and the integers files store in them. */
module Bytes {
  import opened Text

  newtype byte = x: int | 0 <= x < 256

  predicate StartsWith(data: seq<byte>, expected: seq<byte>) {
    |data| >= |expected| && forall k | 0 <= k < |expected| :: data[k] == expected[k]
  }

  lemma StartsWithIsPrefix(data: seq<byte>, expected: seq<byte>)
    ensures StartsWith(data, expected) <==> expected <= data
  {
  }

  /** readUInt32BE, readUInt32LE and readUInt16LE. */
  function ReadU32BE(data: seq<byte>, offset: nat): (r: nat)
    requires offset + 4 <= |data|
    ensures r < 0x1_0000_0000
  {
    data[offset] as int * 0x100_0000 + data[offset + 1] as int * 0x1_0000
    + data[offset + 2] as int * 0x100 + data[offset + 3] as int
  }

  function ReadU32LE(data: seq<byte>, offset: nat): (r: nat)
    requires offset + 4 <= |data|
    ensures r < 0x1_0000_0000
  {
    data[offset] as int + data[offset + 1] as int * 0x100
    + data[offset + 2] as int * 0x1_0000 + data[offset + 3] as int * 0x100_0000
  }

  function ReadU16LE(data: seq<byte>, offset: nat): (r: nat)
    requires offset + 2 <= |data|
    ensures r < 0x1_0000
  {
    data[offset] as int + data[offset + 1] as int * 0x100
  }

  function U32BE(n: nat): (r: seq<byte>)
    requires n < 0x1_0000_0000
    ensures |r| == 4
  {
    [(n / 0x100_0000) as byte, (n / 0x1_0000 % 0x100) as byte, (n / 0x100 % 0x100) as byte, (n % 0x100) as byte]
  }

  function U32LE(n: nat): (r: seq<byte>)
    requires n < 0x1_0000_0000
    ensures |r| == 4
  {
    [(n % 0x100) as byte, (n / 0x100 % 0x100) as byte, (n / 0x1_0000 % 0x100) as byte, (n / 0x100_0000) as byte]
  }

  function U16LE(n: nat): (r: seq<byte>)
    requires n < 0x1_0000
    ensures |r| == 2
  {
    [(n % 0x100) as byte, (n / 0x100) as byte]
  }

  lemma U32BERoundTrip(n: nat)
    requires n < 0x1_0000_0000
    ensures ReadU32BE(U32BE(n), 0) == n
  {
    var a, b := n / 0x100, n / 0x1_0000;
    assert n == a * 0x100 + n % 0x100;
    assert a == b * 0x100 + a % 0x100;
    assert b == n / 0x100_0000 * 0x100 + b % 0x100;
  }

  lemma U32BEIsOnlyEncoding(data: seq<byte>)
    requires |data| == 4
    ensures U32BE(ReadU32BE(data, 0)) == data
  {
    var a, b, c, d := data[0] as int, data[1] as int, data[2] as int, data[3] as int;
    var n := ReadU32BE(data, 0);
    assert n / 0x100 == a * 0x1_0000 + b * 0x100 + c;
    assert n / 0x1_0000 == a * 0x100 + b;
    assert n / 0x100_0000 == a;
  }

  lemma U32LERoundTrip(n: nat)
    requires n < 0x1_0000_0000
    ensures ReadU32LE(U32LE(n), 0) == n
  {
    U32BERoundTrip(n);
  }

  predicate WrittenAt(data: seq<byte>, pattern: seq<byte>, k: nat) {
    k + |pattern| <= |data| && data[k..k + |pattern|] == pattern
  }

  /** The first position at or after `from` where `pattern` is written. */
  function IndexOf(data: seq<byte>, pattern: seq<byte>, from: nat): (r: Option<nat>)
    ensures r.Some? ==> from <= r.value && WrittenAt(data, pattern, r.value)
    ensures forall k | from <= k && WrittenAt(data, pattern, k) :: r.Some? && r.value <= k
    decreases |data| - from
  {
    if from + |pattern| > |data| then None
    else if WrittenAt(data, pattern, from) then Some(from)
    else IndexOf(data, pattern, from + 1)
  }
}
