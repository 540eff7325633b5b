/** The boot image: the packer (boot_image_generator/src/main.rs:39-96) and the reader the kernel loader uses
    (boot_image_generator/src/lib.rs). A table of headers behind a count, then the contents. */
module BootImage {
  import opened Bytes
  import opened Image
  import opened Reading

  datatype InputFile = InputFile(name: seq<byte>, content: seq<byte>)

  datatype FileHeader = FileHeader(magic: nat, name: seq<byte>, fileOffset: nat, fileLength: nat)

  const HEADER_MAGIC: nat := 0x6945
  const MAX_FILES: nat := 64
  /** `size_of::<FileHeader>()`, packed. */
  const HEADER_SIZE: nat := 26
  /** `size_of::<FileHeader>() * MAX_FILES + size_of::<u32>()`. */
  const DATA_START: nat := 1668

  // ---------------------------------------------------------------- the packer

  /** Sixteen bytes: the name cut off, or with zeros behind it. */
  function FixedName(name: seq<byte>): (r: seq<byte>)
    ensures |r| == 16
  {
    if |name| >= 16 then name[..16] else name + Zeros(16 - |name|)
  }

  /** Where the content of the k-th file goes. */
  function Offset(files: seq<InputFile>, k: nat): (o: nat)
    requires k <= |files|
    ensures o >= DATA_START
  {
    if k == 0 then DATA_START else Offset(files, k - 1) + |files[k - 1].content|
  }

  function HeaderFor(files: seq<InputFile>, k: nat): FileHeader
    requires k < |files|
  {
    FileHeader(HEADER_MAGIC, FixedName(files[k].name), U32(Offset(files, k)), U32(|files[k].content|))
  }

  /** The header as it lies in memory on a little-endian machine. */
  function HeaderBytes(h: FileHeader): (bytes: seq<byte>)
    ensures |bytes| == 10 + |h.name|
  {
    Le16(h.magic) + h.name + Le32(h.fileOffset) + Le32(h.fileLength)
  }

  /** The file after the count and the first `k` headers. */
  function TableBytes(files: seq<InputFile>, k: nat): (bytes: seq<byte>)
    requires k <= |files|
    ensures |bytes| == 2 + HEADER_SIZE * k
  {
    if k == 0 then Le16(|files|) else TableBytes(files, k - 1) + HeaderBytes(HeaderFor(files, k - 1))
  }

  /** The file after the contents of the first `k` files as well: each at the offset in its header. */
  function Packed(files: seq<InputFile>, k: nat): seq<byte>
    requires k <= |files|
  {
    if k == 0 then TableBytes(files, |files|)
    else Overwrite(Packed(files, k - 1), U32(Offset(files, k - 1)), files[k - 1].content)
  }

  /** The three loops of the packer: headers, writing the table, writing the contents. */
  method Pack(files: seq<InputFile>, w: Writer)
    requires w.Valid() && w.data == [] && w.pos == 0
    modifies w
    ensures w.data == Packed(files, |files|)
  {
    hide HeaderBytes, FixedName, Overwrite, U32, U16, Le16;
    var headers: seq<FileHeader> := [];
    var offset := DATA_START;
    for i := 0 to |files|
      invariant |headers| == i && offset == Offset(files, i)
      invariant forall k :: 0 <= k < i ==> headers[k] == HeaderFor(files, k)
    {
      var h := FileHeader(HEADER_MAGIC, FixedName(files[i].name), U32(offset), U32(|files[i].content|));
      headers := headers + [h];
      offset := offset + |files[i].content|;
    }
    WriteTable(files, headers, w);
    for i := 0 to |files|
      invariant w.Valid() && w.data == Packed(files, i)
    {
      w.SeekTo(headers[i].fileOffset);
      w.Mark();
      w.WriteAll(files[i].content);
      assert w.run == files[i].content;
    }
  }

  method WriteTable(files: seq<InputFile>, headers: seq<FileHeader>, w: Writer)
    requires w.Valid() && w.data == [] && w.pos == 0
    requires |headers| == |files| && forall k :: 0 <= k < |files| ==> headers[k] == HeaderFor(files, k)
    modifies w
    ensures w.Valid() && w.data == TableBytes(files, |files|)
  {
    hide HeaderBytes, HeaderFor, Overwrite, Le16;
    w.Mark();
    w.WriteU16(LittleEndian, |headers|);
    assert w.run == Le16(|files|);
    for i := 0 to |headers|
      invariant w.Valid() && w.base == [] && w.start == 0 && w.run == TableBytes(files, i)
    {
      w.WriteAll(HeaderBytes(headers[i]));
    }
    WholeRun(w.run);
  }

  lemma WholeRun(run: seq<byte>)
    ensures Overwrite([], 0, run) == run
  {
  }

  // ---------------------------------------------------------------- the reader

  /** `FileIterator`: the headers are read from behind the count. */
  class FileIterator {
    const data: seq<byte>
    var index: nat
    const size: nat

    constructor (data: seq<byte>, size: nat)
      ensures this.data == data && this.size == size && index == 0
    {
      this.data, this.size, index := data, size, 0;
    }

    method Next() returns (h: Option<FileHeader>)
      modifies this
      ensures h == if old(index) < size then Some(ReadHeader(data, old(index))) else None
      ensures index == if old(index) < size then old(index) + 1 else old(index)
    {
      if index < size {
        h := Some(ReadHeader(data, index));
        index := index + 1;
      } else {
        h := None;
      }
    }
  }

  /** The k-th header, read through the packed structure. */
  function ReadHeader(data: seq<byte>, k: nat): FileHeader {
    var o := 2 + HEADER_SIZE * k;
    FileHeader(Read16(LittleEndian, data, o), ReadBytes(data, o + 2, 16), Read32(LittleEndian, data, o + 18),
               Read32(LittleEndian, data, o + 22))
  }

  /** `files`: panics on less than two bytes. */
  function FileCount(data: seq<byte>): nat
    requires |data| >= 2
  {
    Decode16(LittleEndian, data[0], data[1])
  }

  /** Iterating to the end, as the kernel loader does (kernel_loader/src/main.rs:205-209). */
  method AllFiles(data: seq<byte>) returns (headers: seq<FileHeader>)
    requires |data| >= 2
    ensures |headers| == FileCount(data) && forall k :: 0 <= k < |headers| ==> headers[k] == ReadHeader(data, k)
  {
    var iter := new FileIterator(data, FileCount(data));
    headers := [];
    var h := iter.Next();
    while h.Some?
      invariant h.Some? ==> |headers| < iter.size && iter.index == |headers| + 1
      invariant h.Some? ==> h.value == ReadHeader(data, |headers|)
      invariant h.None? ==> |headers| == iter.size
      invariant forall k :: 0 <= k < |headers| ==> headers[k] == ReadHeader(data, k)
      decreases iter.size - |headers|
    {
      headers := headers + [h.value];
      h := iter.Next();
    }
  }

  /** `file_data`: None where the slice is out of range and the source panics. */
  function FileData(data: seq<byte>, h: FileHeader): Option<seq<byte>> {
    var end := U32(h.fileOffset + h.fileLength);
    if h.fileOffset <= end <= |data| then Some(data[h.fileOffset..end]) else None
  }

  // ---------------------------------------------------------------- the round trip

  /** Contents follow each other without gaps, the first one behind the room for 64 headers. */
  ghost predicate Gapless(data: seq<byte>, n: nat) {
    forall k :: 0 <= k < n ==>
      ReadHeader(data, k).fileOffset
      == if k == 0 then 1668 else ReadHeader(data, k - 1).fileOffset + ReadHeader(data, k - 1).fileLength
  }

  /** What packing is meant for: the count, and every file with its name and content. */
  ghost predicate ReadsBack(data: seq<byte>, files: seq<InputFile>) {
    && |data| >= 2 && FileCount(data) == |files|
    && forall k :: 0 <= k < |files| ==> FileReadsBack(data, files, k)
  }

  ghost predicate SomeContent(files: seq<InputFile>) {
    exists k :: 0 <= k < |files| && files[k].content != []
  }

  /** Sixteen bytes, the name with zeros behind it, or its first sixteen bytes. */
  ghost predicate NameIs(field: seq<byte>, name: seq<byte>) {
    |field| == 16 && forall i :: 0 <= i < 16 ==> field[i] == if i < |name| then name[i] else 0
  }

  lemma FixedNameIs(name: seq<byte>)
    ensures NameIs(FixedName(name), name)
  {
  }

  ghost predicate FileReadsBack(data: seq<byte>, files: seq<InputFile>, k: nat)
    requires k < |files|
  {
    var h := ReadHeader(data, k);
    && h.magic == 0x6945 && NameIs(h.name, files[k].name) && FileData(data, h) == Some(files[k].content)
  }

  lemma {:induction false} OffsetGrows(files: seq<InputFile>, j: nat, k: nat)
    requires j <= k <= |files|
    ensures Offset(files, j) <= Offset(files, k)
    ensures j < k ==> Offset(files, j) + |files[j].content| <= Offset(files, k)
    decreases k
  {
    if j < k {
      OffsetGrows(files, j, k - 1);
    }
  }

  lemma PackedStep(files: seq<InputFile>, k: nat)
    requires k < |files| && Offset(files, |files|) < 0x1_0000_0000
    ensures Packed(files, k + 1) == Overwrite(Packed(files, k), Offset(files, k), files[k].content)
    ensures Offset(files, k + 1) == Offset(files, k) + |files[k].content|
  {
    hide Overwrite, TableBytes;
    OffsetGrows(files, k, |files|);
  }

  /** Writing the contents leaves the table as it is, and every content written before. */
  lemma {:induction false} PackedHolds(files: seq<InputFile>, k: nat, table: seq<byte>)
    requires k <= |files| && Offset(files, |files|) < 0x1_0000_0000
    requires table == TableBytes(files, |files|) && |table| <= DATA_START
    ensures Holds(Packed(files, k), 0, table)
    ensures forall j :: 0 <= j < k ==> Holds(Packed(files, k), Offset(files, j), files[j].content)
  {
    hide Overwrite, Holds, TableBytes, U32, Packed, Offset, SameOutside;
    if k == 0 {
      PackedStart(files);
      TableIsThere(table);
    } else {
      PackedHolds(files, k - 1, table);
      PackedStep(files, k - 1);
      var before, o, c := Packed(files, k - 1), Offset(files, k - 1), files[k - 1].content;
      OverwriteFrame(before, o, c);
      HoldsKept(before, Packed(files, k), o, o + |c|, 0, table);
      forall j | 0 <= j < k - 1
        ensures Holds(Packed(files, k), Offset(files, j), files[j].content)
      {
        OffsetGrows(files, j, k - 1);
        HoldsKept(before, Packed(files, k), o, o + |c|, Offset(files, j), files[j].content);
      }
    }
  }

  lemma PackedStart(files: seq<InputFile>)
    ensures Packed(files, 0) == TableBytes(files, |files|)
  {
    hide TableBytes;
  }

  lemma {:induction false} PackedLength(files: seq<InputFile>, k: nat)
    requires k <= |files| && Offset(files, |files|) < 0x1_0000_0000 && |files| <= MAX_FILES
    ensures |Packed(files, k)| == Reach(files, k, 2 + HEADER_SIZE * |files|)
  {
    hide Overwrite, TableBytes, U32, Packed, Offset;
    if k == 0 {
      PackedStart(files);
    } else {
      PackedLength(files, k - 1);
      PackedStep(files, k - 1);
      ReachBounded(files, k - 1, 2 + HEADER_SIZE * |files|);
    }
  }

  lemma TableIsThere(table: seq<byte>)
    ensures Holds(table, 0, table)
  {
  }

  /** Length of the image after `k` contents: the end of the last one that is not empty. */
  function Reach(files: seq<InputFile>, k: nat, table: nat): nat
    requires k <= |files|
  {
    if k == 0 then table
    else if files[k - 1].content == [] then Reach(files, k - 1, table)
    else Offset(files, k)
  }

  lemma {:induction false} ReachBounded(files: seq<InputFile>, k: nat, table: nat)
    requires k <= |files| && table <= DATA_START
    ensures Reach(files, k, table) <= Offset(files, k)
    ensures (exists j :: 0 <= j < k && files[j].content != []) ==> Reach(files, k, table) == Offset(files, k)
    ensures (forall j :: 0 <= j < k ==> files[j].content == []) ==>
      Reach(files, k, table) == table && Offset(files, k) == DATA_START
  {
    if k > 0 {
      ReachBounded(files, k - 1, table);
    }
  }

  /** The k-th header is where the reader looks for it. */
  lemma {:induction false} TableHolds(data: seq<byte>, files: seq<InputFile>, n: nat, k: nat)
    requires k < n <= |files| && Holds(data, 0, TableBytes(files, n))
    ensures Holds(data, 2 + HEADER_SIZE * k, HeaderBytes(HeaderFor(files, k)))
    decreases n
  {
    hide Holds, HeaderBytes, HeaderFor;
    HoldsBoth(data, 0, TableBytes(files, n - 1), HeaderBytes(HeaderFor(files, n - 1)));
    if k < n - 1 {
      TableHolds(data, files, n - 1, k);
    }
  }

  lemma {:induction false} CountHolds(data: seq<byte>, files: seq<InputFile>, n: nat)
    requires n <= |files| && Holds(data, 0, TableBytes(files, n))
    ensures Holds(data, 0, Le16(|files|))
    decreases n
  {
    hide Holds, HeaderBytes, HeaderFor, Le16;
    if n > 0 {
      HoldsBoth(data, 0, TableBytes(files, n - 1), HeaderBytes(HeaderFor(files, n - 1)));
      CountHolds(data, files, n - 1);
    }
  }

  lemma HeaderRead(data: seq<byte>, o: nat, h: FileHeader)
    requires |h.name| == 16 && Holds(data, o, HeaderBytes(h))
    ensures Read16(LittleEndian, data, o) == U16(h.magic) && ReadBytes(data, o + 2, 16) == h.name
    ensures Read32(LittleEndian, data, o + 18) == U32(h.fileOffset)
    ensures Read32(LittleEndian, data, o + 22) == U32(h.fileLength)
  {
    hide Holds, Le32, Le16, Decode16, Decode32;
    HoldsBoth(data, o, Le16(h.magic) + h.name + Le32(h.fileOffset), Le32(h.fileLength));
    HoldsBoth(data, o, Le16(h.magic) + h.name, Le32(h.fileOffset));
    HoldsBoth(data, o, Le16(h.magic), h.name);
    LeSizes(h);
    Read16Held(LittleEndian, data, o, h.magic);
    ReadBytesHeld(data, o + 2, h.name);
    Read32Held(LittleEndian, data, o + 18, h.fileOffset);
    Read32Held(LittleEndian, data, o + 22, h.fileLength);
  }

  lemma LeSizes(h: FileHeader)
    ensures |Le16(h.magic)| == 2 && |Le32(h.fileOffset)| == |Le32(h.fileLength)| == 4
    ensures Ordered16(LittleEndian, h.magic) == Le16(h.magic)
    ensures Ordered32(LittleEndian, h.fileOffset) == Le32(h.fileOffset)
    ensures Ordered32(LittleEndian, h.fileLength) == Le32(h.fileLength)
  {
  }

  /** One file of a list that fits the table. */
  lemma OneFile(files: seq<InputFile>, k: nat)
    requires k < |files| <= MAX_FILES && Offset(files, |files|) < 0x1_0000_0000
    ensures FileReadsBack(Packed(files, |files|), files, k) <==> Offset(files, k) <= |Packed(files, |files|)|
  {
    hide Holds, HeaderBytes, Packed, FixedName, Offset, TableBytes, NameIs;
    var data := Packed(files, |files|);
    FixedNameIs(files[k].name);
    var h := HeaderFor(files, k);
    PackedHolds(files, |files|, TableBytes(files, |files|));
    TableHolds(data, files, |files|, k);
    HeaderRead(data, 2 + HEADER_SIZE * k, h);
    OffsetGrows(files, k, |files|);
    PackedLength(files, |files|);
    ReachAtLeast(files, |files|, k, 2 + HEADER_SIZE * |files|);
    if Offset(files, k) <= |data| {
      HoldsSlice(data, Offset(files, k), files[k].content);
    }
  }

  /** The headers of any list that fits the table give the contents without gaps. */
  lemma PackIsGapless(files: seq<InputFile>)
    requires |files| <= MAX_FILES && Offset(files, |files|) < 0x1_0000_0000
    ensures Gapless(Packed(files, |files|), |files|)
  {
    hide Holds, HeaderBytes, Packed, FixedName, Offset, TableBytes;
    var data, n := Packed(files, |files|), |files|;
    PackedHolds(files, n, TableBytes(files, n));
    forall k | 0 <= k < n
      ensures ReadHeader(data, k).fileOffset
        == if k == 0 then 1668 else ReadHeader(data, k - 1).fileOffset + ReadHeader(data, k - 1).fileLength
    {
      HeaderIs(files, data, k);
      OffsetStep(files, k);
      if k > 0 {
        HeaderIs(files, data, k - 1);
      }
    }
  }

  lemma HeaderIs(files: seq<InputFile>, data: seq<byte>, k: nat)
    requires k < |files| && Offset(files, |files|) < 0x1_0000_0000
    requires Holds(data, 0, TableBytes(files, |files|))
    ensures ReadHeader(data, k).fileOffset == Offset(files, k)
    ensures ReadHeader(data, k).fileLength == |files[k].content|
  {
    hide Holds, HeaderBytes, FixedName, Offset, TableBytes;
    TableHolds(data, files, |files|, k);
    HeaderRead(data, 2 + HEADER_SIZE * k, HeaderFor(files, k));
    OffsetGrows(files, k, |files|);
  }

  lemma OffsetStep(files: seq<InputFile>, k: nat)
    requires k <= |files|
    ensures Offset(files, k) == if k == 0 then 1668 else Offset(files, k - 1) + |files[k - 1].content|
  {
  }

  lemma {:induction false} ReachAtLeast(files: seq<InputFile>, n: nat, k: nat, table: nat)
    requires k < n <= |files| && table <= DATA_START
    ensures files[k].content != [] ==> Offset(files, k) + |files[k].content| <= Reach(files, n, table)
    decreases n
  {
    if k < n - 1 {
      ReachAtLeast(files, n - 1, k, table);
      ReachBounded(files, n - 1, table);
    }
  }

  /** At most 64 files below 4 GiB read back exactly when there is none, or one of them is not empty: contents of
      only empty files are looked for behind the end of the image. */
  lemma PackRoundTrip(files: seq<InputFile>)
    requires |files| <= MAX_FILES && Offset(files, |files|) < 0x1_0000_0000
    ensures ReadsBack(Packed(files, |files|), files) <==> files == [] || SomeContent(files)
  {
    hide Holds, Packed, Offset, TableBytes, FileReadsBack, Reach;
    var data, n := Packed(files, |files|), |files|;
    PackedHolds(files, n, TableBytes(files, n));
    PackedLength(files, n);
    ReachBounded(files, n, 2 + HEADER_SIZE * n);
    ReachTable(files, n, 2 + HEADER_SIZE * n);
    CountHolds(data, files, n);
    CountRead(data, n);
    forall k | 0 <= k < n
      ensures FileReadsBack(data, files, k) <==> Offset(files, k) <= |data|
      ensures DATA_START <= Offset(files, k) <= Offset(files, n)
    {
      OneFile(files, k);
      OffsetGrows(files, k, n);
    }
    if n > 0 && forall k :: 0 <= k < n ==> files[k].content == [] {
      assert !FileReadsBack(data, files, 0);
    }
  }

  lemma {:induction false} ReachTable(files: seq<InputFile>, k: nat, table: nat)
    requires k <= |files| && table <= DATA_START
    ensures Reach(files, k, table) >= table
  {
    if k > 0 {
      ReachTable(files, k - 1, table);
    }
  }

  lemma CountRead(data: seq<byte>, n: nat)
    requires Holds(data, 0, Le16(n)) && |data| >= 2 && n < 0x1_0000
    ensures FileCount(data) == n
  {
    assert At(data, 0) == data[0] && At(data, 1) == data[1];
    Read16Held(LittleEndian, data, 0, n);
  }

  // ---------------------------------------------------------------- more files than the table has room for

  /** The 65th header's name starts where the first content goes. */
  lemma {:induction false} ContentOverTable(files: seq<InputFile>, k: nat)
    requires 1 <= k <= |files| && files[0].content != [] && Offset(files, |files|) < 0x1_0000_0000
    ensures At(Packed(files, k), DATA_START) == files[0].content[0]
  {
    hide Overwrite, TableBytes, Packed, U32;
    PackedStep(files, k - 1);
    assert Offset(files, 0) == DATA_START;
    if k > 1 {
      ContentOverTable(files, k - 1);
      OffsetGrows(files, 0, k - 1);
    }
  }

  /** For every larger number of files there are files that do not read back. */
  lemma TableOverflows(n: nat) returns (files: seq<InputFile>)
    requires MAX_FILES < n
    ensures |files| == n && Offset(files, n) < 0x1_0000_0000 && files[0].content != []
    ensures !ReadsBack(Packed(files, n), files)
  {
    files := [InputFile([0x61], [0x62])] + seq(n - 1, _ => InputFile([0x61], []));
    ShortContents(files, n);
    ContentOverTable(files, n);
    var data := Packed(files, n);
    var h := ReadHeader(data, 64);
    assert h.name[0] == At(data, DATA_START) == 0x62;
    assert FixedName(files[64].name)[0] == 0x61;
    assert !FileReadsBack(data, files, 64);
  }

  /** Any `n` files below 4 GiB, not all of them empty, read back. */
  ghost predicate AnyFilesReadBack(n: nat) {
    forall files: seq<InputFile> ::
      |files| == n && Offset(files, |files|) < 0x1_0000_0000 && SomeContent(files) ==>
        ReadsBack(Packed(files, |files|), files)
  }

  /** The number of files is safe exactly up to the room in the table. */
  lemma RoomForTable(n: nat)
    ensures AnyFilesReadBack(n) <==> n <= MAX_FILES
  {
    hide Offset, Packed, ReadsBack;
    if n <= MAX_FILES {
      forall files: seq<InputFile> | |files| == n && Offset(files, |files|) < 0x1_0000_0000 && SomeContent(files)
        ensures ReadsBack(Packed(files, |files|), files)
      {
        PackRoundTrip(files);
      }
    } else {
      var files := TableOverflows(n);
      assert SomeContent(files);
    }
  }

  lemma {:induction false} ShortContents(files: seq<InputFile>, k: nat)
    requires 1 <= k <= |files| && |files[0].content| == 1 && forall j :: 1 <= j < |files| ==> files[j].content == []
    ensures Offset(files, k) == DATA_START + 1
  {
    if k > 1 {
      ShortContents(files, k - 1);
    }
  }
}
