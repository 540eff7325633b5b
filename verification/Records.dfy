/** Directory records (section 9.1 of ECMA-119) with their SUSP and Rock Ridge fields: what the writers of
    directory_entry.rs and file_entry.rs put into the image, and how a reader takes it apart. */
module Records {
  import opened Bytes
  import opened Image
  import opened Packing
  import opened Reading
  import opened DirectoryTree
  import opened SystemUse

  /** Year to second as recorded in a directory record; the seventh byte is written as 0. */
  type Date = d: seq<byte> | |d| == 6 witness [0, 0, 0, 0, 0, 0]

  /** The time read when the record at a position of the image is written. */
  type Clock = nat -> Date

  datatype Record = Record(identifier: seq<byte>, location: nat, length: nat, flags: byte, systemUse: seq<byte>)

  function IdentifierPad(id: seq<byte>): seq<byte> {
    if |id| % 2 == 0 then [0] else []
  }

  function RecordSize(r: Record): (size: nat)
    ensures size >= 33
  {
    33 + |r.identifier| + |IdentifierPad(r.identifier)| + |r.systemUse|
  }

  /** The fields of section 9.1 in order, the record length first. */
  function HeaderBytes(size: nat, location: nat, length: nat, date: Date, flags: byte,
                       id: seq<byte>): (bytes: seq<byte>)
    ensures |bytes| == 33 + |id| + |IdentifierPad(id)|
  {
    ExtentFields(size, location, length) + DateFields(date, flags) + IdentifierFields(id)
  }

  /** Lengths of record and attribute record, block and length of the extent. */
  function ExtentFields(size: nat, location: nat, length: nat): (bytes: seq<byte>)
    ensures |bytes| == 18
  {
    [U8(size), 0] + Both32(location) + Both32(length)
  }

  /** Date, flags, unit size and gap, number of the volume. */
  function DateFields(date: Date, flags: byte): (bytes: seq<byte>)
    ensures |bytes| == 14
  {
    date + [0, flags, 0, 0] + Both16(1)
  }

  function IdentifierFields(id: seq<byte>): (bytes: seq<byte>)
    ensures |bytes| == 1 + |id| + |IdentifierPad(id)|
  {
    [U8(|id|)] + id + IdentifierPad(id)
  }

  function RecordBytes(r: Record, date: Date): (bytes: seq<byte>)
    ensures |bytes| == RecordSize(r)
  {
    HeaderBytes(RecordSize(r), r.location, r.length, date, r.flags, r.identifier) + r.systemUse
  }

  /** The record with the zeros before it that move it to the next sector when it does not fit. */
  function PlacedBytes(r: Record, pos: nat, clock: Clock): (bytes: seq<byte>)
    ensures pos + |bytes| == Place(pos, RecordSize(r))
  {
    var gap := Gap(pos, RecordSize(r));
    Zeros(gap) + RecordBytes(r, clock(pos + gap))
  }

  // ---------------------------------------------------------------- system use fields

  const SP: seq<byte> := [0x53, 0x50, 0x7, 0x1, 0xBE, 0xEF, 0x0]

  function CE(block: nat, length: nat): (s: seq<byte>)
    ensures |s| == 28
  {
    [0x43, 0x45, 0x1c, 0x1] + Both32(block) + Both32(0) + Both32(length)
  }

  function PX(mode: nat, serial: nat): (s: seq<byte>)
    ensures |s| == 44
  {
    [0x50, 0x58, 0x2c, 0x1] + Both32(mode) + Both32(1) + Both32(0) + Both32(0) + Both32(serial)
  }

  function NM(name: Name): (s: seq<byte>)
    ensures |s| == 5 + |name|
  {
    [0x4E, 0x4D, U8(0x5 + |name|), 0x1, 0x0] + name
  }

  const DIRECTORY_MODE: nat := 0x41ED  // drwxr-xr-x
  const FILE_MODE: nat := 0x81A4       // rw-r--r--
  const DIRECTORY_FLAG: byte := 2

  function SuspFields(d: Dir, kind: nat): seq<byte> {
    if kind != 3 then []
    else if d.continuation.None? then SP
    else SP + CE(d.lba + ExtentBlocks(d), |d.continuation.value|)
  }

  function RockRidgeFields(d: Dir, kind: nat): seq<byte> {
    (if kind < 5 then PX(DIRECTORY_MODE, d.lba + d.index) else []) + (if kind == 0 then NM(d.name) else [])
  }

  function DirRecord(d: Dir, kind: nat): Record {
    Record(DirIdentifier(d.name, kind), d.lba, U32(ExtentBlocks(d) * 2048), DIRECTORY_FLAG,
           SuspFields(d, kind) + RockRidgeFields(d, kind))
  }

  const VERSION: seq<byte> := [0x3B, 0x31]  // ";1"

  function FileRecord(f: File): Record {
    Record(ConvertName(f.name) + VERSION, f.lba, U32(f.size), 0, PX(FILE_MODE, f.lba) + NM(f.name))
  }

  /** The kinds of directory record in use; the root's "." needs the continuation area it points to. */
  predicate KindOk(d: Dir, kind: nat) {
    kind == 0 || kind == 1 || kind == 2 || (kind == 3 && d.continuation.Some?) || kind == 5
  }

  lemma DirRecordFields(d: Dir, kind: nat)
    ensures DirRecord(d, kind)
      == Record(DirIdentifier(d.name, kind), d.lba, U32(ExtentBlocks(d) * 2048), DIRECTORY_FLAG,
                SuspFields(d, kind) + RockRidgeFields(d, kind))
  {
  }

  /** The computed record size is the size of the bytes written, for every kind of record in use. */
  lemma DirRecordSize(d: Dir, kind: nat)
    requires kind <= 3 || kind == 5
    ensures KindOk(d, kind) <==> RecordSize(DirRecord(d, kind)) == DirEntrySize(d, kind)
  {
    assert |SP| == 7;
  }

  lemma FileRecordSize(f: File)
    ensures RecordSize(FileRecord(f)) == FileEntrySize(f)
  {
    hide ConvertName, PX, NM;
  }

  // ---------------------------------------------------------------- writing

  method WriteExtentFields(w: Writer, size: nat, location: nat, length: nat)
    requires w.Valid()
    modifies w
    ensures w.Appended(ExtentFields(size, location, length))
  {
    hide Overwrite, Both32;
    w.WriteU8(U8(size));
    w.WriteU8(0);
    assert w.run == old(w.run) + [U8(size), 0];
    w.WriteBoth32(location);
    w.WriteBoth32(length);
  }

  method WriteDateFields(w: Writer, date: Date, flags: byte)
    requires w.Valid()
    modifies w
    ensures w.Appended(DateFields(date, flags))
  {
    hide Overwrite, Both16;
    w.WriteAll(date);
    w.WriteU8(0);
    w.WriteU8(flags);
    w.WriteU8(0);
    w.WriteU8(0);
    assert w.run == old(w.run) + (date + [0, flags, 0, 0]);
    w.WriteBoth16(1);
  }

  method WriteIdentifierFields(w: Writer, id: seq<byte>)
    requires w.Valid()
    modifies w
    ensures w.Appended(IdentifierFields(id))
  {
    hide Overwrite;
    w.WriteU8(U8(|id|));
    w.WriteAll(id);
    if |id| % 2 == 0 {
      w.WriteU8(0);
    }
    assert w.run == old(w.run) + IdentifierFields(id);
  }

  method WriteHeader(w: Writer, size: nat, location: nat, length: nat, date: Date, flags: byte, id: seq<byte>)
    requires w.Valid()
    modifies w
    ensures w.Wrote(HeaderBytes(size, location, length, date, flags, id))
  {
    hide Overwrite, ExtentFields, DateFields, IdentifierFields;
    w.Mark();
    WriteExtentFields(w, size, location, length);
    WriteDateFields(w, date, flags);
    WriteIdentifierFields(w, id);
    assert w.run == HeaderBytes(size, location, length, date, flags, id);
  }

  /** Moves to the next sector when the record does not fit in this one; positions are taken `as i32`. */
  method PadForRecord(w: Writer, size: nat)
    requires w.Valid() && w.pos + 2047 < 0x8000_0000
    modifies w
    ensures w.Wrote(Zeros(Gap(old(w.pos), size)))
  {
    w.Mark();
    var currentPos := I32(w.pos);
    var diffSize := AlignUp(currentPos) - currentPos;
    if size > diffSize && diffSize != 0 {
      w.WriteAll(Zeros(diffSize));
      assert w.run == Zeros(diffSize);
    } else {
      assert w.run == Zeros(0);
    }
  }

  method WriteSusp(w: Writer, d: Dir)
    requires w.Valid()
    modifies w
    ensures w.Appended(SuspFields(d, 3))
  {
    hide Overwrite, CE, ExtentBlocks;
    w.WriteAll(SP);
    if d.continuation.Some? {
      w.WriteAll(CE(d.lba + ExtentBlocks(d), |d.continuation.value|));
    }
    assert w.run == old(w.run) + SuspFields(d, 3);
  }

  method WriteRockRidge(w: Writer, d: Dir, kind: nat)
    requires w.Valid()
    modifies w
    ensures w.Appended(RockRidgeFields(d, kind))
  {
    hide Overwrite, PX, NM;
    if kind < 5 {
      w.WriteAll(PX(DIRECTORY_MODE, d.lba + d.index));
    }
    if kind == 0 {
      w.WriteAll(NM(d.name));
    }
    assert w.run == old(w.run) + RockRidgeFields(d, kind);
  }

  method WriteSystemUse(w: Writer, d: Dir, kind: nat)
    requires w.Valid()
    modifies w
    ensures w.Wrote(SuspFields(d, kind) + RockRidgeFields(d, kind))
  {
    hide Overwrite, RockRidgeFields;
    w.Mark();
    if kind == 3 {
      WriteSusp(w, d);
    }
    assert w.run == SuspFields(d, kind);
    WriteRockRidge(w, d, kind);
  }

  method WriteFileSystemUse(w: Writer, f: File)
    requires w.Valid()
    modifies w
    ensures w.Wrote(PX(FILE_MODE, f.lba) + NM(f.name))
  {
    hide Overwrite, PX, NM;
    w.Mark();
    w.WriteAll(PX(FILE_MODE, f.lba));
    w.WriteAll(NM(f.name));
    assert w.run == PX(FILE_MODE, f.lba) + NM(f.name);
  }

  /** The parts of a record, written one after the other, are the placed record. */
  lemma ThreeWrites(before: seq<byte>, r: Record, pos: nat, gap: nat, date: Date, header: seq<byte>, clock: Clock)
    requires gap == Gap(pos, RecordSize(r)) && date == clock(pos + gap)
    requires header == HeaderBytes(RecordSize(r), r.location, r.length, date, r.flags, r.identifier)
    ensures
      var one := Overwrite(before, pos, Zeros(gap));
      var two := Overwrite(one, pos + gap, header);
      && Overwrite(two, pos + gap + |header|, r.systemUse) == Overwrite(before, pos, PlacedBytes(r, pos, clock))
      && |PlacedBytes(r, pos, clock)| == gap + |header| + |r.systemUse|
  {
    hide Overwrite, HeaderBytes, Gap, RecordSize;
    OverwriteTwice(Overwrite(before, pos, Zeros(gap)), pos + gap, header, r.systemUse);
    OverwriteTwice(before, pos, Zeros(gap), header + r.systemUse);
  }

  /** `DirectoryEntry::write_entry`. The assertion is the source's own. */
  method WriteDirEntry(w: Writer, d: Dir, kind: nat, clock: Clock)
    requires w.Valid() && KindOk(d, kind)
    requires w.pos + 2047 < 0x8000_0000 && Place(w.pos, DirEntrySize(d, kind)) < 0x8000_0000
    modifies w
    ensures w.Wrote(PlacedBytes(DirRecord(d, kind), old(w.pos), clock))
  {
    hide HeaderBytes, Overwrite, Gap, AlignUp, ExtentBlocks, DirEntrySize, DirIdentifier, RockRidgeFields, SuspFields,
         DirRecord, RecordSize, PlacedBytes;
    ghost var r := DirRecord(d, kind);
    DirRecordFields(d, kind);
    DirRecordSize(d, kind);
    var size := DirEntrySize(d, kind);
    PadForRecord(w, size);
    var oldPos := w.pos;
    WriteHeader(w, size, d.lba, U32(ExtentBlocks(d) * 2048), clock(oldPos), DIRECTORY_FLAG,
                DirIdentifier(d.name, kind));
    WriteSystemUse(w, d, kind);
    ThreeWrites(old(w.data), r, old(w.pos), oldPos - old(w.pos), clock(oldPos),
                HeaderBytes(size, d.lba, r.length, clock(oldPos), DIRECTORY_FLAG, r.identifier), clock);
    var newPos := I32(w.pos);
    assert I32(oldPos) + size == newPos;
  }

  lemma FileRecordFields(f: File)
    ensures FileRecord(f)
      == Record(ConvertName(f.name) + VERSION, f.lba, U32(f.size), 0, PX(FILE_MODE, f.lba) + NM(f.name))
  {
  }

  /** `FileEntry::write_entry`. */
  method WriteFileEntry(w: Writer, f: File, clock: Clock)
    requires w.Valid()
    requires w.pos + 2047 < 0x8000_0000 && Place(w.pos, FileEntrySize(f)) < 0x8000_0000
    modifies w
    ensures w.Wrote(PlacedBytes(FileRecord(f), old(w.pos), clock))
  {
    hide HeaderBytes, Overwrite, Gap, AlignUp, FileEntrySize, PX, NM, ConvertName, FileRecord, RecordSize, PlacedBytes;
    ghost var r := FileRecord(f);
    FileRecordFields(f);
    FileRecordSize(f);
    var size := FileEntrySize(f);
    PadForRecord(w, size);
    var oldPos := w.pos;
    WriteHeader(w, size, f.lba, U32(f.size), clock(oldPos), 0, ConvertName(f.name) + VERSION);
    WriteFileSystemUse(w, f);
    ThreeWrites(old(w.data), r, old(w.pos), oldPos - old(w.pos), clock(oldPos),
                HeaderBytes(size, f.lba, r.length, clock(oldPos), 0, r.identifier), clock);
    var newPos := I32(w.pos);
    assert I32(oldPos) + size == newPos;
  }

  // ---------------------------------------------------------------- reading

  /** What a reader takes from a directory record. */
  datatype Entry = Entry(identifier: seq<byte>, location: nat, length: nat, flags: byte, systemUse: seq<byte>)

  /** Section 9.1: the record must hold its identifier, the two byte orders of a number must agree, the extent has no
      extended attributes, is not interleaved, and is on the first volume. */
  function ParseRecord(data: seq<byte>, o: nat): Option<Entry> {
    var size, idLength := At(data, o) as nat, At(data, o + 32) as nat;
    var location, length := Read32(LittleEndian, data, o + 2), Read32(LittleEndian, data, o + 10);
    var used := 33 + idLength + (1 - idLength % 2);
    if size < used || Read32(BigEndian, data, o + 6) != location || Read32(BigEndian, data, o + 14) != length
       || ReadBytes(data, o + 26, 2) != [0, 0] || At(data, o + 1) != 0
       || Read16(LittleEndian, data, o + 28) != 1 || Read16(BigEndian, data, o + 30) != 1
    then None
    else
      Some(Entry(ReadBytes(data, o + 33, idLength), location, length, At(data, o + 25),
                 ReadBytes(data, o + used, size - used)))
  }

  function EntryOf(r: Record): Entry {
    Entry(r.identifier, U32(r.location), U32(r.length), r.flags, r.systemUse)
  }

  /** A record whose length fits its length byte. */
  predicate Fits(r: Record) {
    RecordSize(r) <= 255
  }

  /** Where the fields of a record are found. */
  lemma HoldsExtentFields(data: seq<byte>, o: nat, size: nat, location: nat, length: nat)
    requires Holds(data, o, ExtentFields(size, location, length))
    ensures At(data, o) == U8(size) && At(data, o + 1) == 0
    ensures Holds(data, o + 2, Both32(location)) && Holds(data, o + 10, Both32(length))
  {
    hide Holds, Both32, At;
    HoldsBoth(data, o, [U8(size), 0] + Both32(location), Both32(length));
    HoldsBoth(data, o, [U8(size), 0], Both32(location));
    HoldsTwo(data, o, U8(size), 0);
  }

  lemma HoldsTwo(data: seq<byte>, o: nat, a: byte, b: byte)
    requires Holds(data, o, [a, b])
    ensures At(data, o) == a && At(data, o + 1) == b
  {
    var j := o + 1;
    assert At(data, j) == [a, b][j - o];
  }

  lemma HoldsDateFields(data: seq<byte>, o: nat, date: Date, flags: byte)
    requires Holds(data, o, DateFields(date, flags))
    ensures ReadBytes(data, o, 7) == date + [0] && At(data, o + 7) == flags && ReadBytes(data, o + 8, 2) == [0, 0]
    ensures Read16(LittleEndian, data, o + 10) == 1 && Read16(BigEndian, data, o + 12) == 1
  {
    hide Holds, At, Ordered16, Decode16;
    assert date + [0, flags, 0, 0] + Both16(1) == date + [0] + [flags, 0] + [0] + (Le16(1) + Be16(1));
    HoldsBoth(data, o, date + [0] + [flags, 0] + [0], Le16(1) + Be16(1));
    HoldsBoth(data, o + 10, Le16(1), Be16(1));
    OneInBothOrders();
    Read16Held(LittleEndian, data, o + 10, 1);
    Read16Held(BigEndian, data, o + 12, 1);
    HoldsBoth(data, o, date + [0] + [flags, 0], [0]);
    HoldsBoth(data, o, date + [0], [flags, 0]);
    ReadBytesHeld(data, o, date + [0]);
    HoldsTwo(data, o + 7, flags, 0);
    HoldsFirst(data, o + 9, [0]);
    assert ReadBytes(data, o + 8, 2) == [At(data, o + 8), At(data, o + 9)];
  }

  lemma OneInBothOrders()
    ensures |Le16(1)| == |Be16(1)| == 2
    ensures Le16(1) == Ordered16(LittleEndian, 1) && Be16(1) == Ordered16(BigEndian, 1)
  {
  }

  lemma HoldsIdentifierFields(data: seq<byte>, o: nat, id: seq<byte>)
    requires Holds(data, o, IdentifierFields(id))
    ensures At(data, o) == U8(|id|) && Holds(data, o + 1, id)
  {
    hide Holds;
    HoldsBoth(data, o, [U8(|id|)] + id, IdentifierPad(id));
    HoldsBoth(data, o, [U8(|id|)], id);
    HoldsFirst(data, o, [U8(|id|)]);
  }

  lemma HoldsHeader(data: seq<byte>, o: nat, size: nat, location: nat, length: nat, date: Date, flags: byte,
                    id: seq<byte>)
    requires Holds(data, o, HeaderBytes(size, location, length, date, flags, id))
    ensures Holds(data, o, ExtentFields(size, location, length)) && Holds(data, o + 18, DateFields(date, flags))
    ensures Holds(data, o + 32, IdentifierFields(id))
  {
    hide Holds, At, ExtentFields, DateFields, IdentifierFields;
    HoldsBoth(data, o, ExtentFields(size, location, length) + DateFields(date, flags), IdentifierFields(id));
    HoldsBoth(data, o, ExtentFields(size, location, length), DateFields(date, flags));
  }

  /** Reading a written record gives back its fields, exactly when the record length fits its byte. The date is the one
      that was given for it. */
  lemma ParseWritten(data: seq<byte>, o: nat, r: Record, date: Date)
    requires Holds(data, o, RecordBytes(r, date))
    ensures Fits(r) ==> At(data, o) as nat == RecordSize(r) && ParseRecord(data, o) == Some(EntryOf(r))
    ensures !Fits(r) ==> At(data, o) as nat != RecordSize(r)
    ensures ReadBytes(data, o + 18, 7) == date + [0]
  {
    hide HeaderBytes, Read32, Read16, At, Both32, Holds, ExtentFields, DateFields, IdentifierFields;
    var header := HeaderBytes(RecordSize(r), r.location, r.length, date, r.flags, r.identifier);
    HoldsBoth(data, o, header, r.systemUse);
    HoldsHeader(data, o, RecordSize(r), r.location, r.length, date, r.flags, r.identifier);
    HoldsExtentFields(data, o, RecordSize(r), r.location, r.length);
    HoldsDateFields(data, o + 18, date, r.flags);
    HoldsIdentifierFields(data, o + 32, r.identifier);
    ReadBoth32Held(data, o + 2, r.location);
    ReadBoth32Held(data, o + 10, r.length);
    ReadBytesHeld(data, o + 33, r.identifier);
    ReadBytesHeld(data, o + |header|, r.systemUse);
  }

  /** A directory name of 165 letters passes the guard and needs a record of 256 bytes. Its length byte is 0, which
      tells a reader that the sector has no more records. */
  lemma LongNameFails(data: seq<byte>, o: nat, date: Date)
    requires Holds(data, o, RecordBytes(DirRecord(EmptyDir(LongName(0x41, 165)), 0), date))
    ensures !Fits(DirRecord(EmptyDir(LongName(0x41, 165)), 0)) && At(data, o) == 0
  {
    hide HeaderBytes, RecordSize, DirRecord, LongName, DirEntrySize, Holds, At, Both32, ExtentFields;
    var d := EmptyDir(LongName(0x41, 165));
    var r := DirRecord(d, 0);
    LongNameSize(0x41, 165);
    DirRecordSize(d, 0);
    HoldsBoth(data, o, HeaderBytes(RecordSize(r), r.location, r.length, date, r.flags, r.identifier), r.systemUse);
    HoldsHeader(data, o, RecordSize(r), r.location, r.length, date, r.flags, r.identifier);
    HoldsExtentFields(data, o, RecordSize(r), r.location, r.length);
  }

  // ---------------------------------------------------------------- the system use area of a record

  lemma PXField(mode: nat, serial: nat, rest: seq<byte>)
    ensures ReadFields(PX(mode, serial) + rest) ==
      match ReadFields(rest)
      case None => None
      case Some(fields) => Some([Field([0x50, 0x58], 1, Numbers([mode, 1, 0, 0, serial]))] + fields)
  {
    hide Both32, ReadFields;
    FiveNumbers(mode, 1, 0, 0, serial);
    assert PX(mode, serial) == [0x50, 0x58, 0x2c, 0x1] + Numbers([mode, 1, 0, 0, serial]);
    FieldFirst(0x50, 0x58, 0x2c, 0x1, Numbers([mode, 1, 0, 0, serial]), rest);
  }

  lemma FiveNumbers(a: nat, b: nat, c: nat, d: nat, e: nat)
    ensures Numbers([a, b, c, d, e]) == Both32(a) + Both32(b) + Both32(c) + Both32(d) + Both32(e)
  {
    hide Both32;
    ThreeNumbers(c, d, e);
    assert [a, b, c, d, e][1..] == [b, c, d, e] && [b, c, d, e][1..] == [c, d, e];
    assert Numbers([b, c, d, e]) == Both32(b) + Numbers([c, d, e]);
  }

  lemma ThreeNumbers(a: nat, b: nat, c: nat)
    ensures Numbers([a, b, c]) == Both32(a) + Both32(b) + Both32(c)
  {
    hide Both32;
    assert [a, b, c][1..] == [b, c] && [b, c][1..] == [c] && [c][1..] == [];
    assert Numbers([c]) == Both32(c) + Numbers([]);
    assert Numbers([b, c]) == Both32(b) + Numbers([c]);
  }

  lemma CEField(block: nat, length: nat, rest: seq<byte>)
    ensures ReadFields(CE(block, length) + rest) ==
      match ReadFields(rest)
      case None => None
      case Some(fields) => Some([Field([0x43, 0x45], 1, Numbers([block, 0, length]))] + fields)
  {
    hide Both32, ReadFields;
    ThreeNumbers(block, 0, length);
    assert CE(block, length) == [0x43, 0x45, 0x1c, 0x1] + Numbers([block, 0, length]);
    FieldFirst(0x43, 0x45, 0x1c, 0x1, Numbers([block, 0, length]), rest);
  }

  lemma NMField(name: Name)
    requires 5 + |name| <= 255
    ensures ReadFields(NM(name)) == Some([Field([0x4E, 0x4D], 1, [0] + name)])
  {
    hide ReadFields;
    NoFields();
    FieldFirst(0x4E, 0x4D, U8(0x5 + |name|), 0x1, [0] + name, []);
    assert NM(name) == [0x4E, 0x4D, U8(0x5 + |name|), 0x1] + ([0] + name) + [];
    var nm := Field([0x4E, 0x4D], 1, [0] + name);
    assert [nm] + [] == [nm];
  }

  lemma NoFields()
    ensures ReadFields([]) == Some([])
  {
  }

  lemma SPField(rest: seq<byte>)
    ensures ReadFields(SP + rest) ==
      match ReadFields(rest)
      case None => None
      case Some(fields) => Some([Field([0x53, 0x50], 1, [0xBE, 0xEF, 0])] + fields)
  {
    hide ReadFields;
    assert SP == [0x53, 0x50, 0x7, 0x1] + [0xBE, 0xEF, 0];
    FieldFirst(0x53, 0x50, 0x7, 0x1, [0xBE, 0xEF, 0], rest);
  }

  lemma PXRead(fields: seq<Field>, before: seq<Field>, after: seq<Field>, mode: nat, serial: nat)
    requires fields == before + [Field([0x50, 0x58], 1, Numbers([mode, 1, 0, 0, serial]))] + after
    requires forall i :: 0 <= i < |before| ==> before[i].signature != [0x50, 0x58]
    ensures AttributesOf(fields) == Some(Attributes(U32(mode), 1, 0, 0, U32(serial)))
  {
    hide Numbers, BothAt, Holds;
    var p := Numbers([mode, 1, 0, 0, serial]);
    FindBehind(before, Field([0x50, 0x58], 1, p), after);
    ItHolds(p);
    NumbersRead(p, 0, [mode, 1, 0, 0, serial], 0);
    NumbersRead(p, 0, [mode, 1, 0, 0, serial], 1);
    NumbersRead(p, 0, [mode, 1, 0, 0, serial], 2);
    NumbersRead(p, 0, [mode, 1, 0, 0, serial], 3);
    NumbersRead(p, 0, [mode, 1, 0, 0, serial], 4);
  }

  lemma CERead(fields: seq<Field>, before: seq<Field>, after: seq<Field>, block: nat, length: nat)
    requires fields == before + [Field([0x43, 0x45], 1, Numbers([block, 0, length]))] + after
    requires before == [Field([0x53, 0x50], 1, [0xBE, 0xEF, 0])]
    ensures ContinuationOf(fields) == Some(Continuation(U32(block), 0, U32(length)))
  {
    hide Numbers, BothAt, Holds;
    var p := Numbers([block, 0, length]);
    FindBehind(before, Field([0x43, 0x45], 1, p), after);
    ItHolds(p);
    NumbersRead(p, 0, [block, 0, length], 0);
    NumbersRead(p, 0, [block, 0, length], 1);
    NumbersRead(p, 0, [block, 0, length], 2);
  }

  lemma ItHolds(data: seq<byte>)
    ensures Holds(data, 0, data)
  {
  }

  lemma {:induction false} FindBehind(before: seq<Field>, field: Field, after: seq<Field>)
    requires forall i :: 0 <= i < |before| ==> before[i].signature != field.signature
    ensures Find(before + [field] + after, field.signature) == Some(field.data)
  {
    if before != [] {
      assert (before + [field] + after)[1..] == before[1..] + [field] + after;
      FindBehind(before[1..], field, after);
    }
  }

  /** What a reader finds in the area of a directory's record: mode drwxr-xr-x, one link, root as owner and a serial
      number; in its parent's extent the full name; in the root's "." where the continuation area is. */
  lemma DirFieldsRead(d: Dir, kind: nat)
    requires kind <= 3 && KindOk(d, kind) && (kind == 0 ==> 5 + |d.name| <= 255)
    ensures var fields := ReadFields(DirRecord(d, kind).systemUse);
      && fields.Some? && AttributesOf(fields.value) == Some(Attributes(0x41ED, 1, 0, 0, U32(d.lba + d.index)))
      && (kind == 0 ==> NameOf(fields.value) == Some(d.name))
      && (kind == 3 ==> ContinuationOf(fields.value)
                        == Some(Continuation(U32(d.lba + ExtentBlocks(d)), 0, U32(|d.continuation.value|))))
  {
    hide ReadFields, AttributesOf, ContinuationOf, Numbers, ExtentBlocks, PX, CE, NM;
    var serial := d.lba + d.index;
    var px := Field([0x50, 0x58], 1, Numbers([DIRECTORY_MODE, 1, 0, 0, serial]));
    NoFields();
    if kind == 0 {
      NMField(d.name);
      PXField(DIRECTORY_MODE, serial, NM(d.name));
      var nm := Field([0x4E, 0x4D], 1, [0] + d.name);
      assert [] + (PX(DIRECTORY_MODE, serial) + NM(d.name)) == PX(DIRECTORY_MODE, serial) + NM(d.name);
      assert [px] + [nm] == [] + [px] + [nm];
      PXRead([px] + [nm], [], [nm], DIRECTORY_MODE, serial);
      NMRead(px, nm, d.name);
    } else {
      PXField(DIRECTORY_MODE, serial, []);
      assert PX(DIRECTORY_MODE, serial) + [] == PX(DIRECTORY_MODE, serial);
      if kind == 3 {
        var block, length := d.lba + ExtentBlocks(d), |d.continuation.value|;
        var sp, ce := Field([0x53, 0x50], 1, [0xBE, 0xEF, 0]), Field([0x43, 0x45], 1, Numbers([block, 0, length]));
        CEField(block, length, PX(DIRECTORY_MODE, serial));
        SPField(CE(block, length) + PX(DIRECTORY_MODE, serial));
        assert SP + CE(block, length) + (PX(DIRECTORY_MODE, serial) + [])
            == SP + (CE(block, length) + PX(DIRECTORY_MODE, serial));
        assert [sp] + ([ce] + ([px] + [])) == [sp, ce] + [px] + [] == [sp] + [ce] + [px];
        PXRead([sp, ce] + [px] + [], [sp, ce], [], DIRECTORY_MODE, serial);
        CERead([sp] + [ce] + [px], [sp], [px], block, length);
      } else {
        assert [] + (PX(DIRECTORY_MODE, serial) + []) == PX(DIRECTORY_MODE, serial);
        assert [px] + [] == [] + [px] + [];
        PXRead([] + [px] + [], [], [], DIRECTORY_MODE, serial);
      }
    }
  }

  lemma NMRead(px: Field, nm: Field, name: Name)
    requires px.signature == [0x50, 0x58] && nm == Field([0x4E, 0x4D], 1, [0] + name)
    ensures NameOf([px] + [nm]) == Some(name)
  {
    assert [px] + [nm] == [px] + [nm] + [];
    FindBehind([px], nm, []);
  }

  /** The same for a file: mode -rw-r--r--, the full name, and its block as serial number. */
  lemma FileFieldsRead(f: File)
    requires 5 + |f.name| <= 255
    ensures var fields := ReadFields(FileRecord(f).systemUse);
      && fields.Some? && AttributesOf(fields.value) == Some(Attributes(0x81A4, 1, 0, 0, U32(f.lba)))
      && NameOf(fields.value) == Some(f.name)
  {
    hide ReadFields, AttributesOf, Numbers, PX, NM, ConvertName;
    var px := Field([0x50, 0x58], 1, Numbers([FILE_MODE, 1, 0, 0, f.lba]));
    var nm := Field([0x4E, 0x4D], 1, [0] + f.name);
    NMField(f.name);
    PXField(FILE_MODE, f.lba, NM(f.name));
    assert [px] + [nm] == [] + [px] + [nm];
    PXRead([px] + [nm], [], [nm], FILE_MODE, f.lba);
    NMRead(px, nm, f.name);
  }
}
