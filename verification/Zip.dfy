/** The Office package check: a walk over ZIP local headers and a tail search for the end record. */
module Zip {
  import opened Text
  import opened Bytes

  const LOCAL_HEADER_SIGNATURE: seq<byte> := [0x50, 0x4b, 0x03, 0x04]
  const END_RECORD_SIGNATURE: seq<byte> := [0x50, 0x4b, 0x05, 0x06]
  const SPANNED_SIGNATURE: seq<byte> := [0x50, 0x4b, 0x07, 0x08]

  predicate HasZipSignature(data: seq<byte>) {
    StartsWith(data, LOCAL_HEADER_SIGNATURE) || StartsWith(data, END_RECORD_SIGNATURE) || StartsWith(data, SPANNED_SIGNATURE)
  }

  const MAXIMUM_END_RECORD_SEARCH_LENGTH := 65557

  /** An end-record signature within the last 65557 bytes: the record's 22 bytes and the longest comment. */
  ghost predicate EndRecordInTail(data: seq<byte>) {
    exists k :: k >= |data| - MAXIMUM_END_RECORD_SEARCH_LENGTH && 0 <= k && WrittenAt(data, END_RECORD_SIGNATURE, k)
  }

  method HasZipEndOfCentralDirectory(data: seq<byte>) returns (r: bool)
    ensures r <==> EndRecordInTail(data)
  {
    var searchStart := if |data| > MAXIMUM_END_RECORD_SEARCH_LENGTH then |data| - MAXIMUM_END_RECORD_SEARCH_LENGTH else 0;
    var tail := data[searchStart..];
    var found := IndexOf(tail, END_RECORD_SIGNATURE, 0);
    forall k: nat ensures WrittenAt(tail, END_RECORD_SIGNATURE, k) <==> WrittenAt(data, END_RECORD_SIGNATURE, searchStart + k) {
      if searchStart + k + 4 <= |data| {
        assert tail[k..k + 4] == data[searchStart + k..searchStart + k + 4];
      }
    }
    if found.Some? {
      assert WrittenAt(data, END_RECORD_SIGNATURE, searchStart + found.value);
    } else {
      forall k: nat | k >= searchStart ensures !WrittenAt(data, END_RECORD_SIGNATURE, k) {
        assert !WrittenAt(tail, END_RECORD_SIGNATURE, k - searchStart);
      }
    }
    return found.Some?;
  }

  /** What the walk reads from the local header at `h`. */
  datatype Header = Header(nameStart: nat, nameEnd: nat, next: nat)

  function HeaderAt(data: seq<byte>, h: nat): (r: Header)
    requires h + 30 <= |data|
    ensures h < r.nameStart <= r.nameEnd <= r.next
  {
    var nameEnd := h + 30 + ReadU16LE(data, h + 26);
    var dataStart := nameEnd + ReadU16LE(data, h + 28);
    var hasDescriptor := ReadU16LE(data, h + 6) / 8 % 2 != 0;
    Header(h + 30, nameEnd, if hasDescriptor then dataStart else dataStart + ReadU32LE(data, h + 18))
  }

  /** The names met by the walk from `from` on. */
  function NamesFrom(data: seq<byte>, from: nat): set<seq<byte>>
    decreases |data| - from
  {
    match IndexOf(data, LOCAL_HEADER_SIGNATURE, from)
    case None => {}
    case Some(h) =>
      if h + 30 > |data| then {}
      else
        var header := HeaderAt(data, h);
        if header.nameEnd == header.nameStart || header.next > |data| then {}
        else {data[header.nameStart..header.nameEnd]} + NamesFrom(data, header.next)
  }

  lemma NamesStep(data: seq<byte>, from: nat)
    ensures var found := IndexOf(data, LOCAL_HEADER_SIGNATURE, from);
            && (found.None? || found.value + 30 > |data| ==> NamesFrom(data, from) == {})
            && (found.Some? && found.value + 30 <= |data| ==>
                  var header := HeaderAt(data, found.value);
                  NamesFrom(data, from) ==
                  if header.nameEnd == header.nameStart || header.next > |data| then {}
                  else {data[header.nameStart..header.nameEnd]} + NamesFrom(data, header.next))
  {
  }

  method ReadZipLocalFileNames(data: seq<byte>) returns (fileNames: set<seq<byte>>)
    ensures fileNames == NamesFrom(data, 0)
  {
    hide NamesFrom, IndexOf, ReadU16LE, ReadU32LE;
    fileNames := {};
    var searchOffset := 0;
    while searchOffset < |data|
      invariant searchOffset <= |data|
      invariant fileNames + NamesFrom(data, searchOffset) == NamesFrom(data, 0)
      decreases |data| - searchOffset
    {
      NamesStep(data, searchOffset);
      var headerOffset := IndexOf(data, LOCAL_HEADER_SIGNATURE, searchOffset);
      if headerOffset.None? {
        return;
      }
      var h := headerOffset.value;
      if h + 30 > |data| {
        return;
      }
      var generalPurposeBitFlag := ReadU16LE(data, h + 6);
      var compressedSize := ReadU32LE(data, h + 18);
      var fileNameLength := ReadU16LE(data, h + 26);
      var extraFieldLength := ReadU16LE(data, h + 28);
      var fileNameStart := h + 30;
      var fileNameEnd := fileNameStart + fileNameLength;
      var entryDataStart := fileNameEnd + extraFieldLength;
      var hasDataDescriptor := generalPurposeBitFlag / 8 % 2 != 0;
      var nextOffset := if hasDataDescriptor then entryDataStart else entryDataStart + compressedSize;
      if fileNameLength == 0 || fileNameEnd > |data| || entryDataStart > |data| || nextOffset > |data| || nextOffset <= h {
        return;
      }
      fileNames := fileNames + {data[fileNameStart..fileNameEnd]};
      searchOffset := nextOffset;
    }
    NamesStep(data, |data|);
  }

  method HasOpenXmlPackageStructure(data: seq<byte>, contentTypes: seq<byte>, requiredEntryName: seq<byte>) returns (r: bool)
    ensures r <==> HasZipSignature(data)
                   && EndRecordInTail(data)
                   && {contentTypes, requiredEntryName} <= NamesFrom(data, 0)
  {
    if !HasZipSignature(data) {
      return false;
    }
    var hasEnd := HasZipEndOfCentralDirectory(data);
    if !hasEnd {
      return false;
    }
    var fileNames := ReadZipLocalFileNames(data);
    return contentTypes in fileNames && requiredEntryName in fileNames;
  }

  /** The three signatures a ZIP file may begin with, byte by byte. */
  lemma ZipSignatures(data: seq<byte>)
    ensures HasZipSignature(data) <==>
            |data| >= 4 && data[0] == 80 && data[1] == 75
            && ((data[2] == 3 && data[3] == 4) || (data[2] == 5 && data[3] == 6) || (data[2] == 7 && data[3] == 8))
  {
  }

  /** The four bytes an end record begins with. */
  predicate EndsAt(data: seq<byte>, k: int) {
    0 <= k && k + 4 <= |data| && data[k] == 80 && data[k + 1] == 75 && data[k + 2] == 5 && data[k + 3] == 6
  }

  /** The end record is looked for byte by byte in the last 65557 bytes. */
  lemma EndRecordSignature(data: seq<byte>)
    ensures EndRecordInTail(data) <==> exists k :: k >= |data| - 65557 && EndsAt(data, k)
  {
    forall k: nat ensures WrittenAt(data, END_RECORD_SIGNATURE, k) <==> EndsAt(data, k) {
      if k + 4 <= |data| {
        assert data[k..k + 4] == [data[k], data[k + 1], data[k + 2], data[k + 3]];
      }
    }
    if k :| k >= |data| - 65557 && EndsAt(data, k) {
      assert WrittenAt(data, END_RECORD_SIGNATURE, k);
    }
  }

  /** An entry to be archived. `before` holds the fields between signature and flags,
      `between` those between flags and sizes: method, time, date, checksum. */
  datatype Entry = Entry(
    before: seq<byte>,
    flags: nat,
    between: seq<byte>,
    uncompressedSize: nat,
    name: seq<byte>,
    extra: seq<byte>,
    content: seq<byte>)

  /** Flag bit 3: the sizes stand in a data descriptor behind the content. */
  predicate HasDescriptor(e: Entry) { e.flags / 8 % 2 == 1 }

  /** Without a data descriptor the header states the size of the content. */
  predicate Archivable(e: Entry) { Fits(e) && !HasDescriptor(e) }

  predicate Fits(e: Entry) {
    && |e.before| == 2 && |e.between| == 10
    && e.flags < 0x1_0000
    && e.uncompressedSize < 0x1_0000_0000
    && |e.name| < 0x1_0000 && |e.extra| < 0x1_0000 && |e.content| < 0x1_0000_0000
  }

  /** A local header that states `size` as the compressed size. */
  function LocalHeader(e: Entry, size: nat): (r: seq<byte>)
    requires Fits(e) && size < 0x1_0000_0000
    ensures |r| == 30
  {
    LOCAL_HEADER_SIGNATURE + e.before + U16LE(e.flags) + e.between + U32LE(size) + U32LE(e.uncompressedSize)
    + U16LE(|e.name|) + U16LE(|e.extra|)
  }

  function EncodeEntry(e: Entry): (r: seq<byte>)
    requires Archivable(e)
    ensures |r| == 30 + |e.name| + |e.extra| + |e.content|
  {
    LocalHeader(e, |e.content|) + e.name + e.extra + e.content
  }

  function EncodeEntries(entries: seq<Entry>): seq<byte>
    requires forall e | e in entries :: Archivable(e)
  {
    if entries == [] then [] else EncodeEntry(entries[0]) + EncodeEntries(entries[1..])
  }

  /** End of central directory: signature, sixteen bytes of counts and offsets, comment length, comment. */
  function EndRecord(counts: seq<byte>, comment: seq<byte>): (r: seq<byte>)
    requires |counts| == 16 && |comment| <= 65535
    ensures |r| == 22 + |comment|
  {
    END_RECORD_SIGNATURE + counts + U16LE(|comment|) + comment
  }

  function Archive(entries: seq<Entry>, directory: seq<byte>, counts: seq<byte>, comment: seq<byte>): seq<byte>
    requires (forall e | e in entries :: Archivable(e)) && |counts| == 16 && |comment| <= 65535
  {
    EncodeEntries(entries) + directory + EndRecord(counts, comment)
  }

  /** A field written inside a stretch of `data` reads back from `data`. */
  lemma ReadsAt(data: seq<byte>, h: nat, part: seq<byte>, i: nat, field: seq<byte>)
    requires h + |part| <= |data| && data[h..h + |part|] == part
    requires i + |field| <= |part| && part[i..i + |field|] == field
    ensures data[h + i..h + i + |field|] == field
    ensures |field| == 2 ==> ReadU16LE(data, h + i) == ReadU16LE(field, 0)
    ensures |field| == 4 ==> ReadU32LE(data, h + i) == ReadU32LE(field, 0)
  {
    forall k | 0 <= k < |field| ensures data[h + i + k] == field[k] {
      assert data[h..h + |part|][i + k] == part[i..i + |field|][k];
    }
  }

  lemma HeaderFields(e: Entry, size: nat)
    requires Fits(e) && size < 0x1_0000_0000
    ensures var header := LocalHeader(e, size);
            && header[0..4] == LOCAL_HEADER_SIGNATURE && header[6..8] == U16LE(e.flags)
            && header[18..22] == U32LE(size)
            && header[26..28] == U16LE(|e.name|) && header[28..30] == U16LE(|e.extra|)
  {
    hide U16LE, U32LE;
  }

  lemma U16LERoundTrip(n: nat)
    requires n < 0x1_0000
    ensures ReadU16LE(U16LE(n), 0) == n
  {
  }

  lemma HeaderReadsBack(e: Entry, size: nat, data: seq<byte>, h: nat)
    requires Fits(e) && size < 0x1_0000_0000 && h + 30 <= |data| && data[h..h + 30] == LocalHeader(e, size)
    ensures WrittenAt(data, LOCAL_HEADER_SIGNATURE, h)
    ensures HeaderAt(data, h) ==
            Header(h + 30, h + 30 + |e.name|, h + 30 + |e.name| + |e.extra| + if HasDescriptor(e) then 0 else size)
  {
    hide LocalHeader, U16LE, U32LE, ReadU16LE, ReadU32LE;
    var header := LocalHeader(e, size);
    HeaderFields(e, size);
    ReadsAt(data, h, header, 0, LOCAL_HEADER_SIGNATURE);
    ReadsAt(data, h, header, 6, U16LE(e.flags));
    ReadsAt(data, h, header, 18, U32LE(size));
    ReadsAt(data, h, header, 26, U16LE(|e.name|));
    ReadsAt(data, h, header, 28, U16LE(|e.extra|));
    U16LERoundTrip(e.flags);
    U16LERoundTrip(|e.name|);
    U16LERoundTrip(|e.extra|);
    U32LERoundTrip(size);
  }

  /** The entries before the first one with an empty name, where the walk gives up. */
  function Named(entries: seq<Entry>): seq<Entry> {
    if entries == [] || entries[0].name == [] then [] else [entries[0]] + Named(entries[1..])
  }

  /** An entry in its place: the walk finds its header there, reads its name and moves to its end. */
  lemma EntryIsWalked(first: Entry, before: seq<byte>, after: seq<byte>)
    requires Archivable(first) && first.name != []
    ensures var data := before + EncodeEntry(first) + after;
            NamesFrom(data, |before|) == {first.name} + NamesFrom(data, |before + EncodeEntry(first)|)
  {
    hide HeaderAt, LocalHeader, NamesFrom;
    var written := EncodeEntry(first);
    var data, h := before + written + after, |before|;
    assert data[h..h + |written|] == written;
    assert written[0..30] == LocalHeader(first, |first.content|);
    ReadsAt(data, h, written, 0, LocalHeader(first, |first.content|));
    HeaderReadsBack(first, |first.content|, data, h);
    NamesStep(data, h);
    assert written[30..30 + |first.name|] == first.name;
    ReadsAt(data, h, written, 30, first.name);
  }

  /** An entry with a data descriptor: whatever size its header states, the walk reads its name and goes on right behind
      its extra field, looking for the next header within the content. */
  lemma DescribedEntryIsWalked(e: Entry, size: nat, before: seq<byte>, after: seq<byte>)
    requires Fits(e) && HasDescriptor(e) && size < 0x1_0000_0000 && e.name != []
    ensures var head := before + LocalHeader(e, size) + e.name + e.extra;
            NamesFrom(head + after, |before|) == {e.name} + NamesFrom(head + after, |head|)
  {
    hide HeaderAt, LocalHeader, NamesFrom;
    var written := LocalHeader(e, size) + e.name + e.extra;
    var head := before + LocalHeader(e, size) + e.name + e.extra;
    var data, h := head + after, |before|;
    assert data[h..h + |written|] == written;
    assert written[0..30] == LocalHeader(e, size);
    ReadsAt(data, h, written, 0, LocalHeader(e, size));
    HeaderReadsBack(e, size, data, h);
    NamesStep(data, h);
    assert written[30..30 + |e.name|] == e.name;
    ReadsAt(data, h, written, 30, e.name);
  }

  /** An unnamed entry stops the walk: what follows it is not seen. */
  lemma UnnamedEntryHidesTheRest(e: Entry, before: seq<byte>, after: seq<byte>)
    requires Archivable(e) && e.name == []
    ensures NamesFrom(before + EncodeEntry(e) + after, |before|) == {}
  {
    hide HeaderAt, LocalHeader, NamesFrom;
    var written := EncodeEntry(e);
    var data, h := before + written + after, |before|;
    assert data[h..h + |written|] == written;
    assert written[0..30] == LocalHeader(e, |e.content|);
    ReadsAt(data, h, written, 0, LocalHeader(e, |e.content|));
    HeaderReadsBack(e, |e.content|, data, h);
    NamesStep(data, h);
  }

  function NamesOf(entries: seq<Entry>): set<seq<byte>> {
    set e | e in entries :: e.name
  }

  /** What the walk reads from the start of some entries on: the names up to the first unnamed entry, and, only
      if there is none, whatever the walk makes of the bytes behind the entries. */
  lemma {:induction false} WalkReadsEntries(entries: seq<Entry>, before: seq<byte>, after: seq<byte>)
    requires forall e | e in entries :: Archivable(e)
    ensures var data := before + EncodeEntries(entries) + after;
            NamesFrom(data, |before|) ==
            NamesOf(Named(entries)) + if Named(entries) == entries then NamesFrom(data, |before + EncodeEntries(entries)|) else {}
    decreases |entries|
  {
    hide NamesFrom, EncodeEntry;
    if entries == [] {
      assert before + EncodeEntries(entries) == before;
    } else {
      var first, rest := entries[0], EncodeEntries(entries[1..]);
      var written := EncodeEntry(first);
      assert before + (written + rest) + after == before + written + (rest + after);
      if first.name == [] {
        UnnamedEntryHidesTheRest(first, before, rest + after);
      } else {
        EntryIsWalked(first, before, rest + after);
        WalkReadsEntries(entries[1..], before + written, after);
        assert (before + written) + rest + after == before + written + (rest + after);
        assert before + (written + rest) == (before + written) + rest;
        assert entries == [first] + entries[1..];
        assert NamesOf([first] + Named(entries[1..])) == {first.name} + NamesOf(Named(entries[1..]));
      }
    }
  }

  lemma {:induction false} NoEmptyNameIsRead(data: seq<byte>, from: nat)
    ensures [] !in NamesFrom(data, from)
    decreases |data| - from
  {
    var found := IndexOf(data, LOCAL_HEADER_SIGNATURE, from);
    if found.Some? && found.value + 30 <= |data| {
      var header := HeaderAt(data, found.value);
      if header.nameEnd != header.nameStart && header.next <= |data| {
        NoEmptyNameIsRead(data, header.next);
      }
    }
  }

  lemma {:induction false} NamedIsAll(entries: seq<Entry>)
    ensures Named(entries) == entries <==> forall e | e in entries :: e.name != []
    ensures forall e | e in Named(entries) :: e in entries
  {
    if entries != [] {
      NamedIsAll(entries[1..]);
      assert entries == [entries[0]] + entries[1..];
    }
  }

  /** The walk over an archive returns every entry's name if and only if no entry's name is empty. */
  lemma WalkIsCompleteWhenAllAreNamed(entries: seq<Entry>, directory: seq<byte>, counts: seq<byte>, comment: seq<byte>)
    requires (forall e | e in entries :: Archivable(e)) && |counts| == 16 && |comment| <= 65535
    ensures NamesOf(entries) <= NamesFrom(Archive(entries, directory, counts, comment), 0) <==>
            forall e | e in entries :: e.name != []
  {
    hide NamesFrom;
    var data := Archive(entries, directory, counts, comment);
    var after := directory + EndRecord(counts, comment);
    assert [] + EncodeEntries(entries) + after == data;
    WalkReadsEntries(entries, [], after);
    NoEmptyNameIsRead(data, 0);
    NamedIsAll(entries);
    if e :| e in entries && e.name == [] {
      assert e.name in NamesOf(entries);
    }
  }

  /** Every archive written this way is accepted when both required entries come before any unnamed entry; and if
      there is an unnamed entry, then only when they do. */
  lemma ArchiveIsAccepted(entries: seq<Entry>, directory: seq<byte>, counts: seq<byte>, comment: seq<byte>,
                          contentTypes: seq<byte>, required: seq<byte>)
    requires (forall e | e in entries :: Archivable(e)) && |counts| == 16 && |comment| <= 65535
    ensures var data := Archive(entries, directory, counts, comment);
            var accepted := HasZipSignature(data) && EndRecordInTail(data) && {contentTypes, required} <= NamesFrom(data, 0);
            && ({contentTypes, required} <= NamesOf(Named(entries)) ==> accepted)
            && ((exists e | e in entries :: e.name == []) ==>
                  (accepted <==> {contentTypes, required} <= NamesOf(Named(entries))))
  {
    hide NamesFrom, EndRecordInTail, HasZipSignature;
    var data := Archive(entries, directory, counts, comment);
    var after := directory + EndRecord(counts, comment);
    assert data == EncodeEntries(entries) + after;
    assert [] + EncodeEntries(entries) + after == data;
    WalkReadsEntries(entries, [], after);
    NamedIsAll(entries);
    EndRecordIsFound(EncodeEntries(entries) + directory, counts, comment);
    if contentTypes in NamesOf(Named(entries)) {
      StartsWithLocalHeader(entries, after);
    }
  }

  lemma StartsWithLocalHeader(entries: seq<Entry>, after: seq<byte>)
    requires (forall e | e in entries :: Archivable(e)) && entries != []
    ensures HasZipSignature(EncodeEntries(entries) + after)
  {
    var data := EncodeEntries(entries) + after;
    assert Archivable(entries[0]);
    assert LOCAL_HEADER_SIGNATURE <= LocalHeader(entries[0], |entries[0].content|) <= EncodeEntry(entries[0]) <= data;
    StartsWithIsPrefix(data, LOCAL_HEADER_SIGNATURE);
  }

  lemma EndRecordIsFound(before: seq<byte>, counts: seq<byte>, comment: seq<byte>)
    requires |counts| == 16 && |comment| <= 65535
    ensures var data := before + EndRecord(counts, comment);
            EndRecordInTail(data)
  {
    var data := before + EndRecord(counts, comment);
    assert data[|before|..|before| + 4] == EndRecord(counts, comment)[..4] == END_RECORD_SIGNATURE;
    assert WrittenAt(data, END_RECORD_SIGNATURE, |before|);
  }
}
