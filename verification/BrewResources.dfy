/** The resource container: directory validation, record lookup and string decoding,
    and the documented layout they invert. */
module BrewResources {
  import opened HostTypes
  import opened ByteStream

  const RECORDS_START := 0x20
  const TEXT: uint16 := 1

  datatype Directory = Directory(recordCount: uint16, offsetTable: uint32, offsetCount: uint32, dataEnd: uint32)

  function Rd16(b: seq<byte>, at: nat): uint16
    requires at + 2 <= |b|
  {
    var lo: int, hi: int := b[at], b[at + 1];
    lo + 0x100 * hi
  }

  function Rd32(b: seq<byte>, at: nat): uint32
    requires at + 4 <= |b|
  {
    WordOf(b[at..at + 4])
  }

  function ParseDirectory(file: seq<byte>): Option<Directory> {
    if |file| < 0x20 then None
    else
      var count, recordsStart, recordsBytes := Rd16(file, 0x06), Rd32(file, 0x08), Rd32(file, 0x0c);
      var table, offsets, dataStart, dataEnd := Rd32(file, 0x10), Rd32(file, 0x14), Rd32(file, 0x18), Rd32(file, 0x1c);
      if count == 0 || offsets == 0 then None
      else if recordsStart != RECORDS_START then None
      else if recordsBytes != count * 8 then None
      else if recordsStart + recordsBytes > |file| || table != recordsStart + recordsBytes then None
      else if table + offsets * 4 > dataStart || dataStart > |file| then None
      else Some(Directory(count, table, offsets,
                          if dataEnd > |file| || dataEnd < dataStart then |file| % TWO32 else dataEnd))
  }

  /** What reading a record demands of the file and its directory: that the offsets read exist. */
  predicate InBounds(file: seq<byte>, dir: Directory) {
    |file| >= 0x1c && dir.offsetTable + dir.offsetCount * 4 <= |file|
  }

  /** Every directory the parser accepts meets it. */
  lemma ParsedIsInBounds(file: seq<byte>)
    requires ParseDirectory(file).Some?
    ensures InBounds(file, ParseDirectory(file).value)
  {
  }

  predicate Matches(file: seq<byte>, i: nat, kind: uint16, id: uint16, anyKind: bool)
    requires RECORDS_START + i * 8 + 8 <= |file|
  {
    Rd16(file, RECORDS_START + i * 8 + 2) == id && (anyKind || Rd16(file, RECORDS_START + i * 8) == kind)
  }

  /** The bytes the i-th record's index points at: where they start and how many there are. */
  function Extent(file: seq<byte>, dir: Directory, i: nat): Option<(uint32, uint32)>
    requires InBounds(file, dir) && RECORDS_START + i * 8 + 8 <= |file|
  {
    var index := Rd16(file, RECORDS_START + i * 8 + 6);
    if index >= dir.offsetCount then None
    else
      var start := Rd32(file, dir.offsetTable + index * 4);
      var end := if index + 1 < dir.offsetCount then Rd32(file, dir.offsetTable + (index + 1) * 4) else dir.dataEnd;
      if start < Rd32(file, 0x18) || start >= end || end > |file| then None else Some((start, end - start))
  }

  /** Looks at the records from the i-th on; the first match decides. */
  function LookupFrom(file: seq<byte>, dir: Directory, i: nat, kind: uint16, id: uint16, anyKind: bool)
    : Option<(uint32, uint32)>
    requires InBounds(file, dir)
    decreases dir.recordCount - i
  {
    if i >= dir.recordCount || RECORDS_START + i * 8 + 8 > |file| then None
    else if Matches(file, i, kind, id, anyKind) then Extent(file, dir, i)
    else LookupFrom(file, dir, i + 1, kind, id, anyKind)
  }

  function Lookup(file: seq<byte>, dir: Directory, kind: uint16, id: uint16, anyKind: bool): Option<(uint32, uint32)>
    requires InBounds(file, dir)
  {
    LookupFrom(file, dir, 0, kind, id, anyKind)
  }

  method ReadBrewResourceRecord(file: seq<byte>, dir: Directory, kind: uint16, id: uint16, anyKind: bool)
    returns (found: bool, start: uint32, size: uint32)
    requires InBounds(file, dir)
    ensures Lookup(file, dir, kind, id, anyKind) == if found then Some((start, size)) else None
    ensures found ==> size > 0 && start as int + size as int <= |file| && start as int + size as int < TWO32
    ensures found ==> Little(file, 24) <= start
  {
    hide ParseDirectory, Extent;
    found, start, size := false, 0, 0;
    for i := 0 to dir.recordCount
      invariant !found && Lookup(file, dir, kind, id, anyKind) == LookupFrom(file, dir, i, kind, id, anyKind)
    {
      var rec := RECORDS_START + i * 8;
      if rec + 8 > |file| {
        return;
      }
      if Rd16(file, rec + 2) == id && (anyKind || Rd16(file, rec) == kind) {
        found, start, size := ReadExtent(file, dir, i);
        return;
      }
    }
  }

  method ReadExtent(file: seq<byte>, dir: Directory, i: nat) returns (found: bool, start: uint32, size: uint32)
    requires InBounds(file, dir) && RECORDS_START + i * 8 + 8 <= |file|
    ensures Extent(file, dir, i) == if found then Some((start, size)) else None
    ensures found ==> size > 0 && start as int + size as int <= |file| && start as int + size as int < TWO32
    ensures found ==> Little(file, 24) <= start
  {
    hide Rd16, Rd32;
    WordIsLittle(file, 24);
    found, start, size := false, 0, 0;
    var dataStart := Rd32(file, 0x18);
    var index := Rd16(file, RECORDS_START + i * 8 + 6);
    if index >= dir.offsetCount {
      return;
    }
    var from := Rd32(file, dir.offsetTable + index * 4);
    var end := if index + 1 < dir.offsetCount then Rd32(file, dir.offsetTable + (index + 1) * 4) else dir.dataEnd;
    if from < dataStart || from >= end || end > |file| {
      return;
    }
    return true, from, end - from;
  }

  // ----- strings ------------------------------------------------------------

  function UnitsUpToZero(b: seq<byte>, bigEndian: bool): seq<uint16> {
    if |b| < 2 || Rd16(b, 0) == 0 then []
    else
      [Unit(Rd16(b, 0), bigEndian)] + UnitsUpToZero(b[2..], bigEndian)
  }

  /** A byte-order mark decides the order of what follows it and is not part of the text. */
  function DecodeString(b: seq<byte>): seq<uint16> {
    if |b| >= 2 && b[0] == 0xFF && b[1] == 0xFE then UnitsUpToZero(b[2..], false)
    else if |b| >= 2 && b[0] == 0xFE && b[1] == 0xFF then UnitsUpToZero(b[2..], true)
    else UnitsUpToZero(b, false)
  }

  function Slice(b: seq<byte>, start: nat, size: nat): seq<byte> {
    if start + size <= |b| then b[start..start + size] else []
  }

  /** The text resource with this identifier, if there is one. */
  function StringResource(file: seq<byte>, dir: Directory, id: uint16): Option<seq<uint16>>
    requires InBounds(file, dir)
  {
    match Lookup(file, dir, TEXT, id, false)
    case None => None
    case Some(e) => Some(DecodeString(Slice(file, e.0, e.1)))
  }

  method ReadBrewResourceString(file: seq<byte>, dir: Directory, id: uint16, out: seq<uint16>)
    returns (ok: bool, out': seq<uint16>)
    requires InBounds(file, dir)
    ensures ok <==> StringResource(file, dir, id).Some?
    ensures out' == if ok then StringResource(file, dir, id).value else out
  {
    hide ParseDirectory, Lookup, UnitsUpToZero;
    var found, start, size := ReadBrewResourceRecord(file, dir, TEXT, id, false);
    if !found {
      return false, out;
    }
    ghost var text := Slice(file, start, size);
    var littleEndian, cursor := true, start as int;
    if size >= 2 {
      if file[start] == 0xFF && file[start + 1] == 0xFE {
        cursor := cursor + 2;
      } else if file[start] == 0xFE && file[start + 1] == 0xFF {
        littleEndian := false;
        cursor := cursor + 2;
      }
    }
    var end := start as int + size;
    assert file[cursor..end] == text[cursor - start..];
    ok := true;
    out' := DecodeUnits(file, cursor, end, !littleEndian);
  }

  function Unit(raw: uint16, bigEndian: bool): uint16 {
    if bigEndian then raw / 0x100 + raw % 0x100 * 0x100 else raw
  }

  lemma NextUnit(file: seq<byte>, cursor: nat, end: nat, bigEndian: bool)
    requires cursor + 2 <= end <= |file|
    ensures UnitsUpToZero(file[cursor..end], bigEndian)
            == if Rd16(file, cursor) == 0 then []
               else [Unit(Rd16(file, cursor), bigEndian)] + UnitsUpToZero(file[cursor + 2..end], bigEndian)
  {
    hide Unit;
    assert Rd16(file[cursor..end], 0) == Rd16(file, cursor);
    assert file[cursor..end][2..] == file[cursor + 2..end];
  }

  lemma NoUnit(b: seq<byte>, bigEndian: bool)
    requires |b| < 2
    ensures UnitsUpToZero(b, bigEndian) == []
  {
  }

  method DecodeUnits(file: seq<byte>, from: nat, end: nat, bigEndian: bool) returns (out: seq<uint16>)
    requires from <= end <= |file|
    ensures out == UnitsUpToZero(file[from..end], bigEndian)
  {
    hide UnitsUpToZero, Rd16, Unit;
    out := [];
    var cursor := from;
    while cursor + 1 < end
      invariant from <= cursor <= end
      invariant UnitsUpToZero(file[from..end], bigEndian) == out + UnitsUpToZero(file[cursor..end], bigEndian)
    {
      NextUnit(file, cursor, end, bigEndian);
      var raw := Rd16(file, cursor);
      if raw == 0 {
        return;
      }
      out := out + [Unit(raw, bigEndian)];
      cursor := cursor + 2;
    }
    NoUnit(file[cursor..end], bigEndian);
  }

  function UnitBytes(u: uint16, bigEndian: bool): seq<byte> {
    if bigEndian then [u / 0x100, u % 0x100] else [u % 0x100, u / 0x100]
  }

  function TextBytes(units: seq<uint16>, bigEndian: bool): seq<byte> {
    if units == [] then [] else UnitBytes(units[0], bigEndian) + TextBytes(units[1..], bigEndian)
  }

  function UpToZero(units: seq<uint16>): seq<uint16> {
    if units == [] || units[0] == 0 then [] else [units[0]] + UpToZero(units[1..])
  }

  lemma {:induction false} UnitsBack(units: seq<uint16>, bigEndian: bool)
    ensures UnitsUpToZero(TextBytes(units, bigEndian), bigEndian) == UpToZero(units)
  {
    hide UnitBytes, Unit, Rd16;
    if units == [] {
      NoUnit([], bigEndian);
    } else {
      var b := TextBytes(units, bigEndian);
      FirstUnitBack(units[0], TextBytes(units[1..], bigEndian), bigEndian);
      UnitsBack(units[1..], bigEndian);
    }
  }

  lemma FirstUnitBack(u: uint16, rest: seq<byte>, bigEndian: bool)
    ensures var b := UnitBytes(u, bigEndian) + rest;
      && |b| >= 2 && b[2..] == rest
      && (Rd16(b, 0) == 0 <==> u == 0) && Unit(Rd16(b, 0), bigEndian) == u
  {
  }

  /** The same text decodes to the same code units whichever byte order it is stored in: those before the first
      zero.  Without a byte-order mark the low-order byte comes first. */
  lemma StringsDecodeAlike(units: seq<uint16>)
    ensures DecodeString([0xFF, 0xFE] + TextBytes(units, false)) == UpToZero(units)
    ensures DecodeString([0xFE, 0xFF] + TextBytes(units, true)) == UpToZero(units)
    ensures units == [] || units[0] !in {0xFEFF, 0xFFFE} ==> DecodeString(TextBytes(units, false)) == UpToZero(units)
  {
    UnitsBack(units, false);
    UnitsBack(units, true);
    assert ([0xFF, 0xFE] + TextBytes(units, false))[2..] == TextBytes(units, false);
    assert ([0xFE, 0xFF] + TextBytes(units, true))[2..] == TextBytes(units, true);
  }

  // ----- the documented layout ----------------------------------------------

  datatype Record = Record(kind: uint16, id: uint16, extra: uint16, index: uint16)

  /** A resource file as its layout is documented: header, records, offsets, gap, resources, anything after. */
  datatype Archive = Archive(
    header: seq<uint16>, records: seq<Record>, blobs: seq<seq<byte>>, gap: seq<byte>, after: seq<byte>)

  function HalfBytes(v: uint16): seq<byte> {
    [v % 0x100, v / 0x100]
  }

  function RecordBytes(r: Record): seq<byte> {
    HalfBytes(r.kind) + HalfBytes(r.id) + HalfBytes(r.extra) + HalfBytes(r.index)
  }

  function RecordsBytes(rs: seq<Record>): seq<byte> {
    if rs == [] then [] else RecordBytes(rs[0]) + RecordsBytes(rs[1..])
  }

  function Size(blobs: seq<seq<byte>>): nat {
    if blobs == [] then 0 else |blobs[0]| + Size(blobs[1..])
  }

  function Concat(blobs: seq<seq<byte>>): seq<byte> {
    if blobs == [] then [] else blobs[0] + Concat(blobs[1..])
  }

  function TableOf(a: Archive): nat { RECORDS_START + |a.records| * 8 }
  function DataStart(a: Archive): nat { TableOf(a) + |a.blobs| * 4 + |a.gap| }
  function DataEnd(a: Archive): nat { DataStart(a) + Size(a.blobs) }

  predicate WellFormed(a: Archive) {
    && |a.header| == 3 && 0 < |a.records| < 0x1_0000 && 0 < |a.blobs|
    && DataEnd(a) + |a.after| < TWO32
  }

  lemma {:induction false} SizeOfPrefix(blobs: seq<seq<byte>>, i: nat)
    requires i <= |blobs|
    ensures Size(blobs[..i]) <= Size(blobs) == |Concat(blobs)|
    ensures i < |blobs| ==> Size(blobs[..i + 1]) == Size(blobs[..i]) + |blobs[i]|
    ensures i < |blobs| ==> Size(blobs[..i]) + |blobs[i]| <= Size(blobs)
    decreases |blobs|
  {
    if blobs != [] {
      if i == 0 {
        SizeOfPrefix(blobs[1..], 0);
        assert blobs[..1][1..] == [];
      } else {
        SizeOfPrefix(blobs[1..], i - 1);
        assert blobs[..i][1..] == blobs[1..][..i - 1];
        if i < |blobs| {
          assert blobs[..i + 1][1..] == blobs[1..][..i];
        }
      }
    }
  }

  lemma {:induction false} ConcatSlice(blobs: seq<seq<byte>>, i: nat)
    requires i < |blobs|
    ensures Size(blobs[..i]) + |blobs[i]| <= |Concat(blobs)|
    ensures Concat(blobs)[Size(blobs[..i])..Size(blobs[..i]) + |blobs[i]|] == blobs[i]
    decreases |blobs|
  {
    SizeOfPrefix(blobs, i);
    if i > 0 {
      ConcatSlice(blobs[1..], i - 1);
      assert blobs[..i][1..] == blobs[1..][..i - 1];
      var at := Size(blobs[1..][..i - 1]);
      SliceInside(blobs[0], Concat(blobs[1..]), [], at, |blobs[i]|);
      assert blobs[0] + (Concat(blobs[1..]) + []) == Concat(blobs);
    }
  }

  /** The absolute offset of the i-th resource; the one past the last is the end of the data. */
  function OffsetOf(a: Archive, i: nat): uint32
    requires WellFormed(a) && i <= |a.blobs|
  {
    SizeOfPrefix(a.blobs, i);
    DataStart(a) + Size(a.blobs[..i])
  }

  function OffsetTable(a: Archive): seq<uint32>
    requires WellFormed(a)
  {
    seq(|a.blobs|, i requires 0 <= i < |a.blobs| => OffsetOf(a, i))
  }

  function HeaderHalves(a: Archive): seq<byte>
    requires WellFormed(a)
  {
    HalfBytes(a.header[0]) + HalfBytes(a.header[1]) + HalfBytes(a.header[2]) + HalfBytes(|a.records|)
  }

  function HeaderWords(a: Archive): seq<uint32>
    requires WellFormed(a)
  {
    [RECORDS_START, |a.records| * 8, TableOf(a), |a.blobs|, DataStart(a), DataEnd(a)]
  }

  function Data(a: Archive): seq<byte> {
    a.gap + (Concat(a.blobs) + a.after)
  }

  function ArchiveBytes(a: Archive): seq<byte>
    requires WellFormed(a)
  {
    HeaderHalves(a) + (WordsBytes(HeaderWords(a)) + (RecordsBytes(a.records) + (WordsBytes(OffsetTable(a)) + Data(a))))
  }

  // ----- reading the layout back ----------------------------------------------

  lemma ReadInside(pre: seq<byte>, mid: seq<byte>, post: seq<byte>, at: nat)
    ensures at + 4 <= |mid| ==> Rd32(pre + (mid + post), |pre| + at) == Rd32(mid, at)
    ensures at + 2 <= |mid| ==> Rd16(pre + (mid + post), |pre| + at) == Rd16(mid, at)
  {
    if at + 4 <= |mid| {
      assert (pre + (mid + post))[|pre| + at..|pre| + at + 4] == mid[at..at + 4];
    }
  }

  lemma {:induction false} WordAt(ws: seq<uint32>, i: nat)
    ensures |WordsBytes(ws)| == 4 * |ws|
    ensures i < |ws| ==> Rd32(WordsBytes(ws), 4 * i) == ws[i]
    decreases |ws|
  {
    hide WordBytes;
    if ws != [] {
      var head, tail := WordBytes(ws[0]), WordsBytes(ws[1..]);
      FourBytes(ws[0]);
      if i == 0 {
        WordAt(ws[1..], 0);
        WordRoundTrip(ws[0]);
        assert (head + tail)[0..4] == head;
      } else {
        WordAt(ws[1..], i - 1);
        ReadInside(head, tail, [], 4 * (i - 1));
        assert head + (tail + []) == head + tail;
      }
    }
  }

  lemma FourBytes(v: uint32)
    ensures |WordBytes(v)| == 4
  {
  }

  lemma RecordFields(r: Record)
    ensures |RecordBytes(r)| == 8
    ensures Rd16(RecordBytes(r), 0) == r.kind && Rd16(RecordBytes(r), 2) == r.id && Rd16(RecordBytes(r), 6) == r.index
  {
  }

  lemma {:induction false} RecordAt(rs: seq<Record>, i: nat)
    ensures |RecordsBytes(rs)| == 8 * |rs|
    ensures i < |rs| ==>
      var b := RecordsBytes(rs);
      Rd16(b, 8 * i) == rs[i].kind && Rd16(b, 8 * i + 2) == rs[i].id && Rd16(b, 8 * i + 6) == rs[i].index
    decreases |rs|
  {
    hide RecordBytes, Rd16;
    if rs != [] {
      var head, tail := RecordBytes(rs[0]), RecordsBytes(rs[1..]);
      RecordFields(rs[0]);
      if i == 0 {
        RecordAt(rs[1..], 0);
        ReadInside([], head, tail, 0);
        ReadInside([], head, tail, 2);
        ReadInside([], head, tail, 6);
        assert [] + (head + tail) == head + tail;
      } else {
        RecordAt(rs[1..], i - 1);
        ReadInside(head, tail, [], 8 * (i - 1));
        ReadInside(head, tail, [], 8 * (i - 1) + 2);
        ReadInside(head, tail, [], 8 * (i - 1) + 6);
        assert head + (tail + []) == head + tail;
      }
    }
  }

  lemma HeaderReads(a: Archive, i: nat)
    requires WellFormed(a) && i < 6
    ensures |ArchiveBytes(a)| == DataEnd(a) + |a.after|
    ensures Rd16(ArchiveBytes(a), 6) == |a.records|
    ensures Rd32(ArchiveBytes(a), 8 + 4 * i) == HeaderWords(a)[i]
  {
    hide WordBytes, WordsBytes, RecordsBytes, Rd32, WordOf;
    var halves, words := HeaderHalves(a), WordsBytes(HeaderWords(a));
    var post := RecordsBytes(a.records) + (WordsBytes(OffsetTable(a)) + Data(a));
    WordAt(HeaderWords(a), i);
    WordAt(OffsetTable(a), 0);
    RecordAt(a.records, 0);
    SizeOfPrefix(a.blobs, 0);
    ReadInside(halves, words, post, 4 * i);
    ReadInside([], halves, words + post, 6);
    assert [] + (halves + (words + post)) == halves + (words + post);
  }

  lemma RecordReads(a: Archive, i: nat)
    requires WellFormed(a) && i < |a.records|
    ensures var b := ArchiveBytes(a);
      && RECORDS_START + i * 8 + 8 <= |b|
      && Rd16(b, RECORDS_START + i * 8) == a.records[i].kind
      && Rd16(b, RECORDS_START + i * 8 + 2) == a.records[i].id
      && Rd16(b, RECORDS_START + i * 8 + 6) == a.records[i].index
  {
    hide WordBytes, WordsBytes, RecordsBytes, Rd16;
    var pre := HeaderHalves(a) + WordsBytes(HeaderWords(a));
    var records, post := RecordsBytes(a.records), WordsBytes(OffsetTable(a)) + Data(a);
    WordAt(HeaderWords(a), 0);
    RecordAt(a.records, i);
    assert |pre| == RECORDS_START;
    assert ArchiveBytes(a) == pre + (records + post);
    ReadInside(pre, records, post, 8 * i);
    ReadInside(pre, records, post, 8 * i + 2);
    ReadInside(pre, records, post, 8 * i + 6);
  }

  lemma OffsetReads(a: Archive, i: nat)
    requires WellFormed(a) && i < |a.blobs|
    ensures TableOf(a) + i * 4 + 4 <= |ArchiveBytes(a)|
    ensures Rd32(ArchiveBytes(a), TableOf(a) + i * 4) == OffsetOf(a, i)
  {
    hide WordBytes, WordsBytes, RecordsBytes, Rd32, OffsetOf;
    var pre := HeaderHalves(a) + (WordsBytes(HeaderWords(a)) + RecordsBytes(a.records));
    var table := WordsBytes(OffsetTable(a));
    WordAt(HeaderWords(a), 0);
    RecordAt(a.records, 0);
    WordAt(OffsetTable(a), i);
    assert |pre| == TableOf(a);
    assert ArchiveBytes(a) == pre + (table + Data(a));
    ReadInside(pre, table, Data(a), 4 * i);
  }

  lemma BlobReads(a: Archive, i: nat)
    requires WellFormed(a) && i < |a.blobs|
    ensures OffsetOf(a, i) + |a.blobs[i]| <= |ArchiveBytes(a)|
    ensures Slice(ArchiveBytes(a), OffsetOf(a, i), |a.blobs[i]|) == a.blobs[i]
    ensures OffsetOf(a, i + 1) == OffsetOf(a, i) + |a.blobs[i]|
  {
    hide ArchiveBytes, Concat, OffsetTable;
    var pre := BeforeData(a);
    DataFollows(a);
    SizeOfPrefix(a.blobs, i);
    ConcatSlice(a.blobs, i);
    SliceInside(pre, Concat(a.blobs), a.after, Size(a.blobs[..i]), |a.blobs[i]|);
  }

  lemma SliceInside(pre: seq<byte>, mid: seq<byte>, post: seq<byte>, at: nat, n: nat)
    requires at + n <= |mid|
    ensures Slice(pre + (mid + post), |pre| + at, n) == mid[at..at + n]
  {
  }

  function BeforeData(a: Archive): seq<byte>
    requires WellFormed(a)
  {
    HeaderHalves(a) + (WordsBytes(HeaderWords(a)) + (RecordsBytes(a.records) + (WordsBytes(OffsetTable(a)) + a.gap)))
  }

  lemma DataFollows(a: Archive)
    requires WellFormed(a)
    ensures |BeforeData(a)| == DataStart(a)
    ensures ArchiveBytes(a) == BeforeData(a) + (Concat(a.blobs) + a.after)
    ensures |ArchiveBytes(a)| == DataEnd(a) + |a.after|
  {
    hide WordBytes, WordsBytes, RecordsBytes, Concat, OffsetTable, HeaderWords, HeaderHalves;
    HeaderReads(a, 0);
    WordAt(HeaderWords(a), 0);
    RecordAt(a.records, 0);
    WordAt(OffsetTable(a), 0);
    SizeOfPrefix(a.blobs, 0);
    HeaderSizes(a);
    var w, r := WordsBytes(HeaderWords(a)), RecordsBytes(a.records);
    var t, all := WordsBytes(OffsetTable(a)), Concat(a.blobs);
    assert ArchiveBytes(a) == BeforeData(a) + (all + a.after);
  }

  lemma HeaderSizes(a: Archive)
    requires WellFormed(a)
    ensures |HeaderHalves(a)| == 8 && |HeaderWords(a)| == 6 && |OffsetTable(a)| == |a.blobs|
  {
  }

  function DirectoryOf(a: Archive): Directory
    requires WellFormed(a)
  {
    Directory(|a.records|, TableOf(a), |a.blobs|, DataEnd(a))
  }

  /** A file laid out as documented is accepted, with exactly the directory it was built from. */
  lemma LayoutParses(a: Archive)
    requires WellFormed(a)
    ensures ParseDirectory(ArchiveBytes(a)) == Some(DirectoryOf(a))
  {
    hide ArchiveBytes, Rd16, Rd32;
    HeaderReads(a, 0);
    HeaderReads(a, 1);
    HeaderReads(a, 2);
    HeaderReads(a, 3);
    HeaderReads(a, 4);
    HeaderReads(a, 5);
  }

  function FirstMatch(rs: seq<Record>, kind: uint16, id: uint16, anyKind: bool): Option<Record> {
    if rs == [] then None
    else if rs[0].id == id && (anyKind || rs[0].kind == kind) then Some(rs[0])
    else FirstMatch(rs[1..], kind, id, anyKind)
  }

  /** The resource a record names: none when its index is out of the table or the resource is empty. */
  function ResourceOf(a: Archive, r: Option<Record>): Option<seq<byte>> {
    if r.None? || r.value.index >= |a.blobs| || a.blobs[r.value.index] == [] then None
    else Some(a.blobs[r.value.index])
  }

  function Fetched(file: seq<byte>, e: Option<(uint32, uint32)>): Option<seq<byte>> {
    if e.None? then None else Some(Slice(file, e.value.0, e.value.1))
  }

  lemma ExtentIsResource(a: Archive, i: nat)
    requires WellFormed(a) && i < |a.records| && InBounds(ArchiveBytes(a), DirectoryOf(a))
    requires RECORDS_START + i * 8 + 8 <= |ArchiveBytes(a)|
    ensures Fetched(ArchiveBytes(a), Extent(ArchiveBytes(a), DirectoryOf(a), i)) == ResourceOf(a, Some(a.records[i]))
  {
    hide ArchiveBytes, Rd16, Rd32, OffsetOf, ParseDirectory;
    RecordReads(a, i);
    HeaderReads(a, 4);
    var index := a.records[i].index;
    if index < |a.blobs| {
      OffsetReads(a, index);
      BlobReads(a, index);
      OffsetBounds(a, index);
      if index + 1 < |a.blobs| {
        OffsetReads(a, index + 1);
      }
    }
  }

  lemma OffsetBounds(a: Archive, i: nat)
    requires WellFormed(a) && i < |a.blobs|
    ensures DataStart(a) <= OffsetOf(a, i) && (i + 1 == |a.blobs| ==> OffsetOf(a, i + 1) == DataEnd(a))
  {
    assert a.blobs[..|a.blobs|] == a.blobs;
  }

  lemma {:induction false} LookupFromFinds(a: Archive, i: nat, kind: uint16, id: uint16, anyKind: bool)
    requires WellFormed(a) && i <= |a.records| && InBounds(ArchiveBytes(a), DirectoryOf(a))
    ensures Fetched(ArchiveBytes(a), LookupFrom(ArchiveBytes(a), DirectoryOf(a), i, kind, id, anyKind))
            == ResourceOf(a, FirstMatch(a.records[i..], kind, id, anyKind))
    decreases |a.records| - i
  {
    hide ArchiveBytes, Rd16, ParseDirectory, Extent, ResourceOf;
    if i == |a.records| {
      NoResource(a);
    } else {
      RecordReads(a, i);
      ExtentIsResource(a, i);
      assert a.records[i..][1..] == a.records[i + 1..];
      LookupFromFinds(a, i + 1, kind, id, anyKind);
    }
  }

  lemma NoResource(a: Archive)
    ensures ResourceOf(a, None) == None
  {
  }

  /** Looking a resource up in a file laid out as documented returns exactly the bytes of the first
      record that matches, and nothing exactly when no record matches or it names no data. */
  lemma LookupInvertsLayout(a: Archive, kind: uint16, id: uint16, anyKind: bool)
    requires WellFormed(a)
    ensures ParseDirectory(ArchiveBytes(a)) == Some(DirectoryOf(a))
    ensures InBounds(ArchiveBytes(a), DirectoryOf(a))
    ensures Fetched(ArchiveBytes(a), Lookup(ArchiveBytes(a), DirectoryOf(a), kind, id, anyKind))
            == ResourceOf(a, FirstMatch(a.records, kind, id, anyKind))
  {
    hide ArchiveBytes, ParseDirectory, ResourceOf;
    LayoutParses(a);
    ParsedIsInBounds(ArchiveBytes(a));
    LookupFromFinds(a, 0, kind, id, anyKind);
    assert a.records[0..] == a.records;
  }

  /** The first text record with an identifier, laid out with a byte-order mark in either order, is read back as
      its code units up to the first zero. */
  lemma TextReadsBack(a: Archive, id: uint16, units: seq<uint16>, bigEndian: bool)
    requires WellFormed(a)
    requires var r := FirstMatch(a.records, 1, id, false);
      r.Some? && r.value.index < |a.blobs|
      && a.blobs[r.value.index] == (if bigEndian then [0xFE, 0xFF] else [0xFF, 0xFE]) + TextBytes(units, bigEndian)
    ensures ParseDirectory(ArchiveBytes(a)) == Some(DirectoryOf(a))
    ensures InBounds(ArchiveBytes(a), DirectoryOf(a))
    ensures StringResource(ArchiveBytes(a), DirectoryOf(a), id) == Some(UpToZero(units))
  {
    hide ArchiveBytes, ParseDirectory, TextBytes, UpToZero, DecodeString;
    LookupInvertsLayout(a, TEXT, id, false);
    StringsDecodeAlike(units);
  }

  // ----- which headers are accepted, and one file in bytes --------------------

  /** Exactly these headers are accepted; the end of the data, when it lies outside the data or the file, is taken
      to be the end of the file. */
  lemma ParsesIff(file: seq<byte>)
    ensures ParseDirectory(file).Some? <==>
      && |file| >= 32
      && var count := file[6] as int + 256 * file[7] as int;
         && count > 0 && Little(file, 20) > 0
         && Little(file, 8) == 32 && Little(file, 12) == 8 * count
         && Little(file, 16) == 32 + 8 * count <= |file|
         && Little(file, 16) + 4 * Little(file, 20) <= Little(file, 24) <= |file|
    ensures ParseDirectory(file).Some? ==>
      var end := if Little(file, 24) <= Little(file, 28) <= |file| then Little(file, 28) else |file| % TWO32;
      ParseDirectory(file).value
      == Directory(file[6] as int + 256 * file[7] as int, Little(file, 16), Little(file, 20), end)
  {
    if |file| >= 32 {
      WordsAreLittle(file);
      hide Rd32, Little;
    }
  }

  lemma WordsAreLittle(file: seq<byte>)
    requires |file| >= 32
    ensures forall k :: 2 <= k < 8 ==> Rd32(file, 4 * k) == Little(file, 4 * k)
  {
    forall k | 2 <= k < 8 ensures Rd32(file, 4 * k) == Little(file, 4 * k) {
      WordIsLittle(file, 4 * k);
    }
  }

  lemma WordIsLittle(file: seq<byte>, at: nat)
    requires at + 4 <= |file|
    ensures Rd32(file, at) == Little(file, at)
  {
  }

  /** What the header of a file laid out as documented says. */
  lemma HeaderLayout(a: Archive)
    requires WellFormed(a)
    ensures var b, n, m := ArchiveBytes(a), |a.records|, |a.blobs|;
      var data := 32 + 8 * n + 4 * m + |a.gap|;
      && data + Size(a.blobs) <= |b|
      && Half(b, 6) == n
      && Little(b, 8) == 32 && Little(b, 12) == 8 * n && Little(b, 16) == 32 + 8 * n && Little(b, 20) == m
      && Little(b, 24) == data && Little(b, 28) == data + Size(a.blobs)
  {
    hide ArchiveBytes, Rd16, Rd32, Little, Half;
    var b := ArchiveBytes(a);
    HeaderField(a, 0);
    HeaderField(a, 1);
    HeaderField(a, 2);
    HeaderField(a, 3);
    HeaderField(a, 4);
    HeaderField(a, 5);
    HalvesAreHalves(b);
  }

  lemma HeaderField(a: Archive, i: nat)
    requires WellFormed(a) && i < 6
    ensures |ArchiveBytes(a)| == DataEnd(a) + |a.after| && Rd16(ArchiveBytes(a), 6) == |a.records|
    ensures Little(ArchiveBytes(a), 8 + 4 * i) == HeaderWords(a)[i]
  {
    hide ArchiveBytes, Rd16, Rd32, Little;
    HeaderReads(a, i);
    WordIsLittle(ArchiveBytes(a), 8 + 4 * i);
  }

  /** Where a record, an offset and a resource stand in such a file. */
  lemma ResourceLayout(a: Archive, i: nat, k: nat)
    requires WellFormed(a) && i < |a.records| && k < |a.blobs|
    ensures var b, n, m := ArchiveBytes(a), |a.records|, |a.blobs|;
      var at := 32 + 8 * n + 4 * m + |a.gap| + Size(a.blobs[..k]);
      && 32 + 8 * n + 4 * m <= |b| && at + |a.blobs[k]| <= |b|
      && Half(b, 32 + 8 * i) == a.records[i].kind && Half(b, 34 + 8 * i) == a.records[i].id
      && Half(b, 38 + 8 * i) == a.records[i].index
      && Little(b, 32 + 8 * n + 4 * k) == at && b[at..at + |a.blobs[k]|] == a.blobs[k]
  {
    hide ArchiveBytes, Rd16, Rd32, Little, Half, OffsetTable;
    var b := ArchiveBytes(a);
    DataFollows(a);
    SizeOfPrefix(a.blobs, k);
    HalvesAreHalves(b);
    RecordReads(a, i);
    OffsetReads(a, k);
    WordIsLittle(b, TableOf(a) + k * 4);
    BlobReads(a, k);
  }

  function Half(b: seq<byte>, at: nat): int
    requires at + 2 <= |b|
  {
    b[at] as int + 256 * b[at + 1] as int
  }

  lemma HalvesAreHalves(b: seq<byte>)
    ensures forall at: nat :: at + 2 <= |b| ==> Rd16(b, at) == Half(b, at)
  {
  }

  /** Unit k of a stored text is its two bytes, the high-order one first when stored big-endian. */
  lemma {:induction false} StoredUnit(units: seq<uint16>, k: nat)
    requires k < |units|
    ensures var little, big := TextBytes(units, false), TextBytes(units, true);
      && |little| == |big| == 2 * |units|
      && little[2 * k] as int + 256 * little[2 * k + 1] as int == units[k]
      && 256 * big[2 * k] as int + big[2 * k + 1] as int == units[k]
    decreases |units|
  {
    TextLength(units, false);
    TextLength(units, true);
    if k > 0 {
      StoredUnit(units[1..], k - 1);
    }
  }

  lemma {:induction false} TextLength(units: seq<uint16>, bigEndian: bool)
    ensures |TextBytes(units, bigEndian)| == 2 * |units|
  {
    if units != [] {
      TextLength(units[1..], bigEndian);
    }
  }

  lemma {:induction false} UpToZeroIsPrefix(units: seq<uint16>, n: nat)
    requires n <= |units| && (forall k :: 0 <= k < n ==> units[k] != 0) && (n < |units| ==> units[n] == 0)
    ensures UpToZero(units) == units[..n]
    decreases n
  {
    if n > 0 {
      UpToZeroIsPrefix(units[1..], n - 1);
    }
  }

  /** The first match is the first record with the identifier, and with the type unless any will do. */
  lemma {:induction false} FirstMatchIsFirst(rs: seq<Record>, kind: uint16, id: uint16, anyKind: bool, i: nat)
    requires i <= |rs| && forall k :: 0 <= k < i ==> !(rs[k].id == id && (anyKind || rs[k].kind == kind))
    requires i < |rs| ==> rs[i].id == id && (anyKind || rs[i].kind == kind)
    ensures FirstMatch(rs, kind, id, anyKind) == if i < |rs| then Some(rs[i]) else None
    decreases i
  {
    if i > 0 {
      FirstMatchIsFirst(rs[1..], kind, id, anyKind, i - 1);
    }
  }
}
