/** The PNG chunk walk: it recognises exactly the files made of a signature and a proper chunk list. */
module Png {
  import opened Text
  import opened Bytes

  const SIGNATURE: seq<byte> := [0x89, 0x50, 0x4e, 0x47, 0x0d, 0x0a, 0x1a, 0x0a]
  const IHDR: seq<byte> := [0x49, 0x48, 0x44, 0x52]
  const IEND: seq<byte> := [0x49, 0x45, 0x4e, 0x44]

  /** A chunk on disk: length, type, data, checksum. */
  datatype Chunk = Chunk(kind: seq<byte>, body: seq<byte>, crc: seq<byte>)

  predicate Sized(c: Chunk) {
    |c.kind| == 4 && |c.crc| == 4 && |c.body| < 0x1_0000_0000
  }

  /** "ascii" decoding drops the high bit of every byte, so chunk types are compared modulo 128. */
  predicate SameType(kind: seq<byte>, expected: seq<byte>) {
    |kind| == |expected| && forall k | 0 <= k < |kind| :: kind[k] as int % 128 == expected[k] as int % 128
  }

  function Encode(c: Chunk): (r: seq<byte>)
    requires Sized(c)
    ensures |r| == |c.body| + 12
  {
    U32BE(|c.body|) + c.kind + c.body + c.crc
  }

  function EncodeAll(chunks: seq<Chunk>): seq<byte>
    requires forall c | c in chunks :: Sized(c)
  {
    if chunks == [] then [] else Encode(chunks[0]) + EncodeAll(chunks[1..])
  }

  predicate IsHeader(c: Chunk) { SameType(c.kind, IHDR) && |c.body| == 13 }

  predicate IsEnd(c: Chunk) { SameType(c.kind, IEND) }

  /** Chunks up to and including an empty IEND, the only one; with `first`, they begin with a header of 13 bytes. */
  ghost predicate ProperChunks(chunks: seq<Chunk>, first: bool) {
    && chunks != []
    && (forall c | c in chunks :: Sized(c))
    && (first ==> IsHeader(chunks[0]))
    && (forall k | 0 <= k < |chunks| :: IsEnd(chunks[k]) <==> k == |chunks| - 1)
    && chunks[|chunks| - 1].body == []
  }

  ghost predicate IsChunkList(data: seq<byte>, first: bool) {
    exists chunks :: ProperChunks(chunks, first) && data == EncodeAll(chunks)
  }

  ghost predicate IsPng(data: seq<byte>) {
    SIGNATURE <= data && IsChunkList(data[|SIGNATURE|..], true)
  }

  /** The chunk written at the front of `data`. */
  function FirstChunk(data: seq<byte>): (c: Chunk)
    requires |data| >= 12 && 12 + ReadU32BE(data, 0) <= |data|
    ensures Sized(c)
  {
    var n := ReadU32BE(data, 0);
    Chunk(data[4..8], data[8..8 + n], data[8 + n..12 + n])
  }

  lemma FirstChunkIsWritten(data: seq<byte>)
    requires |data| >= 12 && 12 + ReadU32BE(data, 0) <= |data|
    ensures data == Encode(FirstChunk(data)) + data[12 + ReadU32BE(data, 0)..]
  {
    var n := ReadU32BE(data, 0);
    U32BEIsOnlyEncoding(data[..4]);
    assert ReadU32BE(data[..4], 0) == n;
    assert data == data[..4] + data[4..8] + data[8..8 + n] + data[8 + n..12 + n] + data[12 + n..];
  }

  lemma EncodeIsPrefixFree(c: Chunk, rest: seq<byte>)
    requires Sized(c)
    ensures var data := Encode(c) + rest;
            && |data| >= 12 && ReadU32BE(data, 0) == |c.body|
            && 12 + |c.body| <= |data|
            && FirstChunk(data) == c && data[12 + |c.body|..] == rest
  {
    var data := Encode(c) + rest;
    U32BERoundTrip(|c.body|);
    assert data[..4] == U32BE(|c.body|);
    assert forall k | 0 <= k < 4 :: data[k] == U32BE(|c.body|)[k];
    assert data[4..8] == c.kind;
    assert data[8..8 + |c.body|] == c.body;
    assert data[8 + |c.body|..12 + |c.body|] == c.crc;
  }

  /** Whether a chunk fits at the front of `data`. */
  predicate HasFirstChunk(data: seq<byte>) {
    |data| >= 12 && 12 + ReadU32BE(data, 0) <= |data|
  }

  function AfterFirstChunk(data: seq<byte>): seq<byte>
    requires HasFirstChunk(data)
  {
    data[12 + ReadU32BE(data, 0)..]
  }

  lemma ListBegins(data: seq<byte>, first: bool)
    requires IsChunkList(data, first)
    ensures HasFirstChunk(data)
    ensures var c, rest := FirstChunk(data), AfterFirstChunk(data);
            && (first ==> IsHeader(c))
            && (if IsEnd(c) then c.body == [] && rest == [] else IsChunkList(rest, false))
  {
    hide Encode, FirstChunk, IsEnd, IsHeader;
    var chunks :| ProperChunks(chunks, first) && data == EncodeAll(chunks);
    EncodeIsPrefixFree(chunks[0], EncodeAll(chunks[1..]));
    if |chunks| > 1 {
      assert ProperChunks(chunks[1..], false);
    } else {
      assert EncodeAll(chunks[1..]) == [];
    }
  }

  lemma ListBeginsWith(data: seq<byte>, first: bool)
    requires HasFirstChunk(data) && (first ==> IsHeader(FirstChunk(data)))
    requires var c, rest := FirstChunk(data), AfterFirstChunk(data);
             if IsEnd(c) then c.body == [] && rest == [] else IsChunkList(rest, false)
    ensures IsChunkList(data, first)
  {
    hide Encode, FirstChunk, IsEnd, IsHeader;
    var c, rest := FirstChunk(data), AfterFirstChunk(data);
    FirstChunkIsWritten(data);
    if IsEnd(c) {
      var chunks := [c];
      assert chunks[1..] == [];
      assert EncodeAll(chunks) == Encode(c) + [];
      assert ProperChunks(chunks, first);
    } else {
      var tail :| ProperChunks(tail, false) && rest == EncodeAll(tail);
      var chunks := [c] + tail;
      assert chunks[1..] == tail;
      assert ProperChunks(chunks, first);
    }
  }

  /** One turn of the walk, on the bytes not yet read. */
  lemma WalkStep(data: seq<byte>, first: bool)
    ensures |data| < 12 ==> !IsChunkList(data, first)
    ensures |data| >= 12 && 12 + ReadU32BE(data, 0) > |data| ==> !IsChunkList(data, first)
    ensures |data| >= 12 && 12 + ReadU32BE(data, 0) <= |data| ==>
              var c, rest := FirstChunk(data), data[12 + ReadU32BE(data, 0)..];
              && (first && !IsHeader(c) ==> !IsChunkList(data, first))
              && (IsEnd(c) && (first ==> IsHeader(c)) ==> (IsChunkList(data, first) <==> c.body == [] && rest == []))
              && (!IsEnd(c) && (first ==> IsHeader(c)) ==> (IsChunkList(data, first) <==> IsChunkList(rest, false)))
  {
    hide IsChunkList, FirstChunk, IsEnd, IsHeader;
    if IsChunkList(data, first) {
      ListBegins(data, first);
    }
    if HasFirstChunk(data) && (first ==> IsHeader(FirstChunk(data))) {
      var c, rest := FirstChunk(data), AfterFirstChunk(data);
      if if IsEnd(c) then c.body == [] && rest == [] else IsChunkList(rest, false) {
        ListBeginsWith(data, first);
      }
    }
  }

  lemma HeaderIsNotEnd(kind: seq<byte>)
    ensures !(SameType(kind, IHDR) && SameType(kind, IEND))
  {
    assert IHDR[1] as int % 128 != IEND[1] as int % 128;
  }

  lemma KindOfFirstChunk(data: seq<byte>)
    requires HasFirstChunk(data)
    ensures FirstChunk(data).kind == data[4..8]
  {
  }

  method HasPngStructure(data: seq<byte>) returns (r: bool)
    ensures r <==> IsPng(data)
  {
    if !StartsWith(data, SIGNATURE) {
      return false;
    }
    var offset := 8;
    var hasImageHeader := false;
    while offset + 12 <= |data|
      invariant 8 <= offset <= |data|
      invariant IsPng(data) <==> IsChunkList(data[offset..], !hasImageHeader)
      decreases |data| - offset
    {
      ghost var tail := data[offset..];
      WalkStep(tail, !hasImageHeader);
      var chunkLength := ReadU32BE(data, offset);
      assert chunkLength == ReadU32BE(tail, 0);
      var nextOffset := offset + 8 + chunkLength + 4;
      if nextOffset > |data| || nextOffset <= offset {
        return false;
      }
      assert tail[12 + chunkLength..] == data[nextOffset..];
      var chunkType := data[offset + 4..offset + 8];
      assert tail[4..8] == chunkType;
      KindOfFirstChunk(tail);
      if !hasImageHeader {
        if !SameType(chunkType, IHDR) || chunkLength != 13 {
          return false;
        }
        hasImageHeader := true;
      }
      HeaderIsNotEnd(chunkType);
      if SameType(chunkType, IEND) {
        return hasImageHeader && chunkLength == 0 && nextOffset == |data|;
      }
      offset := nextOffset;
    }
    WalkStep(data[offset..], !hasImageHeader);
    return false;
  }

  /** A PNG begins with its eight signature bytes, a length of 13 and the letters IHDR, and ends with a length of 0, the
      letters IEND and four bytes of checksum; only the high bits of the letters are free. */
  lemma PngFrame(data: seq<byte>)
    requires IsPng(data)
    ensures |data| >= 45
    ensures data[..12] == [137, 80, 78, 71, 13, 10, 26, 10, 0, 0, 0, 13]
    ensures data[12] as int % 128 == 73 && data[13] as int % 128 == 72 && data[14] as int % 128 == 68 && data[15] as int % 128 == 82
    ensures var n := |data| - 12;
            && data[n..n + 4] == [0, 0, 0, 0]
            && data[n + 4] as int % 128 == 73 && data[n + 5] as int % 128 == 69
            && data[n + 6] as int % 128 == 78 && data[n + 7] as int % 128 == 68
  {
    hide IsChunkList;
    var rest := data[8..];
    assert data[..8] == SIGNATURE;
    HeaderBytes(rest);
    LastChunkBytes(rest, true);
    assert data[..12] == data[..8] + rest[..4];
    assert forall k | 0 <= k < |rest| :: rest[k] == data[8 + k];
    var n := |rest| - 12;
    assert data[8 + n..8 + n + 4] == rest[n..n + 4];
  }

  lemma FirstChunkBytes(data: seq<byte>)
    requires HasFirstChunk(data)
    ensures var c := FirstChunk(data);
            && |data| == 12 + |c.body| + |AfterFirstChunk(data)|
            && data[..4] == U32BE(|c.body|)
            && |c.kind| == 4 && c.kind[0] == data[4] && c.kind[1] == data[5] && c.kind[2] == data[6] && c.kind[3] == data[7]
  {
    FirstChunkIsWritten(data);
    var c := FirstChunk(data);
    hide FirstChunk, U32BE;
    assert data[..4] == U32BE(|c.body|);
    assert data[4..8] == c.kind;
  }

  lemma LengthBytes()
    ensures U32BE(13) == [0, 0, 0, 13] && U32BE(0) == [0, 0, 0, 0]
  {
  }

  lemma HeaderBytes(data: seq<byte>)
    requires IsChunkList(data, true)
    ensures |data| >= 37 && data[..4] == [0, 0, 0, 13]
    ensures data[4] as int % 128 == 73 && data[5] as int % 128 == 72 && data[6] as int % 128 == 68 && data[7] as int % 128 == 82
  {
    hide IsChunkList, FirstChunk, U32BE, ReadU32BE;
    ListBegins(data, true);
    HeaderIsNotEnd(FirstChunk(data).kind);
    FirstChunkBytes(data);
    LengthBytes();
    ListBegins(AfterFirstChunk(data), false);
    FirstChunkBytes(AfterFirstChunk(data));
  }

  lemma {:induction false} LastChunkBytes(data: seq<byte>, first: bool)
    requires IsChunkList(data, first)
    ensures |data| >= 12
    ensures var n := |data| - 12;
            && data[n..n + 4] == [0, 0, 0, 0]
            && data[n + 4] as int % 128 == 73 && data[n + 5] as int % 128 == 69
            && data[n + 6] as int % 128 == 78 && data[n + 7] as int % 128 == 68
    decreases |data|
  {
    hide IsChunkList, FirstChunk, U32BE, ReadU32BE;
    ListBegins(data, first);
    FirstChunkBytes(data);
    LengthBytes();
    var rest := AfterFirstChunk(data);
    if !IsEnd(FirstChunk(data)) {
      LastChunkBytes(rest, false);
      var skipped := |data| - |rest|;
      assert data[skipped..] == rest;
      assert forall k | 0 <= k < |rest| :: rest[k] == data[skipped + k];
      assert data[|data| - 12..|data| - 8] == rest[|rest| - 12..|rest| - 8];
    }
  }

  /** The smallest PNG structure is accepted, whatever its header and checksums hold, and whatever the high bits of the
      letters of its two chunk types are. */
  lemma SmallestPng(kind: seq<byte>, header: seq<byte>, crc: seq<byte>, kind': seq<byte>, crc': seq<byte>)
    requires |header| == 13 && |crc| == 4 && |crc'| == 4 && |kind| == 4 && |kind'| == 4
    requires kind[0] as int % 128 == 73 && kind[1] as int % 128 == 72 && kind[2] as int % 128 == 68 && kind[3] as int % 128 == 82
    requires kind'[0] as int % 128 == 73 && kind'[1] as int % 128 == 69 && kind'[2] as int % 128 == 78 && kind'[3] as int % 128 == 68
    ensures IsPng([137, 80, 78, 71, 13, 10, 26, 10] + ([0, 0, 0, 13] + kind + header + crc) + ([0, 0, 0, 0] + kind' + crc'))
  {
    var ihdr, iend := Chunk(kind, header, crc), Chunk(kind', [], crc');
    var chunks := [ihdr, iend];
    HeaderIsNotEnd(ihdr.kind);
    assert chunks[1..] == [iend] && [iend][1..] == [];
    LengthBytes();
    assert Encode(iend) == [0, 0, 0, 0] + kind' + crc';
    assert EncodeAll([iend]) == Encode(iend);
    assert EncodeAll(chunks) == Encode(ihdr) + Encode(iend);
    assert ProperChunks(chunks, true);
    var data := SIGNATURE + (Encode(ihdr) + Encode(iend));
    assert data[|SIGNATURE|..] == EncodeAll(chunks);
    assert data == [137, 80, 78, 71, 13, 10, 26, 10] + ([0, 0, 0, 13] + kind + header + crc) + ([0, 0, 0, 0] + kind' + crc');
  }
}
