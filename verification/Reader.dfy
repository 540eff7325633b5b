/** Reading the directory hierarchy back as ECMA-119 defines it (sections 6.8.1 and 9.1): the records of an
    extent follow each other, a zero byte where a record should start means that the rest of the sector is unused. */
module Reader {
  import opened Bytes
  import opened Image
  import opened Packing
  import opened Reading
  import opened DirectoryTree
  import opened Records
  import opened Layout
  import opened Extents
  import opened SystemUse

  // ---------------------------------------------------------------- the reader

  /** The records from position `o` up to position `end`. */
  function Scan(data: seq<byte>, o: nat, end: nat): Option<seq<Entry>>
    decreases if o < end then end - o else 0
  {
    if o >= end then Some([])
    else if At(data, o) == 0 then Scan(data, (o / 2048 + 1) * 2048, end)
    else
      match ParseRecord(data, o)
      case None => None
      case Some(e) =>
        match Scan(data, o + At(data, o) as nat, end)
        case None => None
        case Some(rest) => Some([e] + rest)
  }

  /** Where an extent is, how long, and what Rock Ridge says of the file or directory. */
  datatype Extent = Extent(location: nat, length: nat, attributes: Attributes)

  /** A file or directory as found in the image: identifier, full name, extent. */
  datatype Node =
    | FileNode(identifier: seq<byte>, name: seq<byte>, extent: Extent)
    | DirNode(identifier: seq<byte>, name: seq<byte>, extent: Extent, entries: seq<Node>)

  /** Bit 1 of the flags; no other may be set. */
  predicate IsDirectory(e: Entry) {
    e.flags == 2
  }

  predicate IsFile(e: Entry) {
    e.flags == 0
  }

  function FieldsOf(e: Entry): seq<Field> {
    match ReadFields(e.systemUse)
    case None => []
    case Some(fields) => fields
  }

  function ExtentOf(e: Entry): Option<Extent> {
    match AttributesOf(FieldsOf(e))
    case None => None
    case Some(attributes) => Some(Extent(e.location, e.length, attributes))
  }

  /** The directory with the given extent, at most `depth` levels down. "." must give the same extent, ".." the one that
      the parent has been found with; in the root, which has no parent, ".." must be at the root's block. */
  function ReadDirectory(data: seq<byte>, self: Extent, parent: Option<Extent>, depth: nat): Option<seq<Node>>
    decreases depth, 1, 0
  {
    match Scan(data, self.location * 2048, self.location * 2048 + self.length)
    case None => None
    case Some(es) =>
      if |es| < 2 || es[0].identifier != [0] || ExtentOf(es[0]) != Some(self) || es[1].identifier != [1]
         || (if parent.Some? then ExtentOf(es[1]) != parent else es[1].location != self.location)
      then None
      else ReadEntries(data, es[2..], self, depth)
  }

  /** The nodes for the entries of the directory with the given extent. */
  function ReadEntries(data: seq<byte>, es: seq<Entry>, self: Extent, depth: nat): Option<seq<Node>>
    decreases depth, 0, |es|
  {
    if es == [] then Some([])
    else
      match (ReadEntries(data, es[1..], self, depth), NameOf(FieldsOf(es[0])), ExtentOf(es[0]))
      case (Some(rest), Some(name), Some(extent)) =>
        if IsFile(es[0]) then Some([FileNode(es[0].identifier, name, extent)] + rest)
        else if !IsDirectory(es[0]) || depth == 0 then None
        else (
          match ReadDirectory(data, extent, Some(self), depth - 1)
          case None => None
          case Some(entries) => Some([DirNode(es[0].identifier, name, extent, entries)] + rest)
        )
      case _ => None
  }

  /** The root: its attributes, the bytes of its continuation area, its entries. */
  datatype Root = Root(attributes: Attributes, area: seq<byte>, entries: seq<Node>)

  /** The root starts with its own record, which has the attributes, and leads to the continuation area. */
  function ReadRoot(data: seq<byte>, location: nat, length: nat, depth: nat): Option<Root> {
    match ParseRecord(data, location * 2048)
    case None => None
    case Some(dot) =>
      match (AttributesOf(FieldsOf(dot)), ContinuationOf(FieldsOf(dot)))
      case (Some(attributes), Some(c)) => (
        match ReadDirectory(data, Extent(location, length, attributes), None, depth)
        case None => None
        case Some(entries) => Some(Root(attributes, ReadBytes(data, c.block * 2048 + c.offset, c.length), entries))
      )
      case _ => None
  }

  // ---------------------------------------------------------------- what it should find

  /** A file is found with its identifier, which ends with ";1", its full name, block and size. */
  function ListFiles(fs: seq<File>): seq<Node> {
    if fs == [] then []
    else
      [FileNode(ConvertName(fs[0].name) + [0x3B, 0x31], fs[0].name,
                Extent(fs[0].lba, fs[0].size, Attributes(0x81A4, 1, 0, 0, fs[0].lba)))]
      + ListFiles(fs[1..])
  }

  function DirAttributes(d: Dir): Attributes {
    Attributes(0x41ED, 1, 0, 0, U32(d.lba + d.index))
  }

  function DirExtent(d: Dir): Extent {
    Extent(d.lba, ExtentBlocks(d) * 2048, DirAttributes(d))
  }

  function ListForest(ds: seq<Dir>): seq<Node>
    decreases ds
  {
    if ds == [] then []
    else
      [DirNode(ConvertName(ds[0].name), ds[0].name, DirExtent(ds[0]), ListForest(ds[0].dirs) + ListFiles(ds[0].files))]
      + ListForest(ds[1..])
  }

  function Listing(d: Dir): seq<Node> {
    ListForest(d.dirs) + ListFiles(d.files)
  }

  function Depth(ds: seq<Dir>): nat
    decreases ds
  {
    if ds == [] then 0
    else
      var here, rest := 1 + Depth(ds[0].dirs), Depth(ds[1..]);
      if here >= rest then here else rest
  }

  /** Names are short enough that the record lengths fit a byte, and file sizes fit four. */
  ghost predicate Recordable(fs: seq<File>) {
    forall i :: 0 <= i < |fs| ==> FileEntrySize(fs[i]) <= 255 && fs[i].size < 0x1_0000_0000 && fs[i].lba < 0x1_0000_0000
  }

  ghost predicate ForestRecordable(ds: seq<Dir>)
    decreases ds
  {
    ds == [] ||
    (&& DirEntrySize(ds[0], 0) <= 255 && Recordable(ds[0].files)
     && ForestRecordable(ds[0].dirs) && ForestRecordable(ds[1..]))
  }

  // ---------------------------------------------------------------- scanning one extent

  function EntriesOf(rs: seq<Record>): (es: seq<Entry>)
    ensures |es| == |rs| && forall i :: 0 <= i < |rs| ==> es[i] == EntryOf(rs[i])
  {
    seq(|rs|, i requires 0 <= i < |rs| => EntryOf(rs[i]))
  }

  lemma {:induction false} HoldsPacked(data: seq<byte>, rs: seq<Record>, n: nat, pos: nat, clock: Clock, k: nat)
    requires k < n <= |rs| && Holds(data, pos, PackBytes(rs, n, pos, clock))
    ensures var p := PackTo(pos, Sizes(rs), k); Holds(data, p, PlacedBytes(rs[k], p, clock))
    decreases n
  {
    hide Holds, PackTo, PlacedBytes, Sizes;
    PackBytesStep(rs, n - 1, pos, clock);
    HoldsBoth(data, pos, PackBytes(rs, n - 1, pos, clock),
              PlacedBytes(rs[n - 1], PackTo(pos, Sizes(rs), n - 1), clock));
    if k < n - 1 {
      HoldsPacked(data, rs, n - 1, pos, clock, k);
    }
  }

  /** Zeros up to the end of the extent hold no records. */
  lemma {:induction false} ScanBlank(data: seq<byte>, o: nat, end: nat)
    requires Blank(data, o, end) && end % 2048 == 0
    ensures Scan(data, o, end) == Some([])
    decreases if o < end then end - o else 0
  {
    if o < end {
      var next := (o / 2048 + 1) * 2048;
      BlankPart(data, o, end, next, end);
      ScanBlank(data, next, end);
    }
  }

  /** A record that was moved to the next sector is found there, any other right here. */
  lemma ScanPlaced(data: seq<byte>, pos: nat, r: Record, clock: Clock, end: nat)
    requires Fits(r) && Holds(data, pos, PlacedBytes(r, pos, clock)) && Place(pos, RecordSize(r)) <= end
    ensures Scan(data, pos, end) ==
      match Scan(data, Place(pos, RecordSize(r)), end)
      case None => None
      case Some(rest) => Some([EntryOf(r)] + rest)
  {
    hide RecordBytes, ParseRecord, EntryOf, Holds;
    var gap := Gap(pos, RecordSize(r));
    HoldsBoth(data, pos, Zeros(gap), RecordBytes(r, clock(pos + gap)));
    ParseWritten(data, pos + gap, r, clock(pos + gap));
    if gap > 0 {
      HoldsFirst(data, pos, Zeros(gap));
      assert (pos / 2048 + 1) * 2048 == pos + gap;
    }
  }

  /** Scanning the packed records from the k-th on gives their entries. */
  lemma {:induction false} ScanPacked(data: seq<byte>, rs: seq<Record>, pos: nat, clock: Clock, k: nat, end: nat)
    requires k <= |rs| && forall i :: 0 <= i < |rs| ==> Fits(rs[i])
    requires Holds(data, pos, PackBytes(rs, |rs|, pos, clock)) && PackTo(pos, Sizes(rs), |rs|) <= end && end % 2048 == 0
    requires Blank(data, PackTo(pos, Sizes(rs), |rs|), end)
    ensures Scan(data, PackTo(pos, Sizes(rs), k), end) == Some(EntriesOf(rs)[k..])
    decreases |rs| - k
  {
    hide Holds, Blank, Scan, PlacedBytes, PackBytes, PackTo, Place, EntryOf, Fits, RecordSize;
    var p := PackTo(pos, Sizes(rs), k);
    if k == |rs| {
      ScanBlank(data, p, end);
      assert EntriesOf(rs)[k..] == [];
    } else {
      HoldsPacked(data, rs, |rs|, pos, clock, k);
      PackToStep(pos, Sizes(rs), k);
      PackForward(pos, Sizes(rs), k + 1, |rs|);
      ScanPlaced(data, p, rs[k], clock, end);
      ScanPacked(data, rs, pos, clock, k + 1, end);
      assert EntriesOf(rs)[k..] == [EntryOf(rs[k])] + EntriesOf(rs)[k + 1..];
    }
  }

  // ---------------------------------------------------------------- the round trip

  lemma DotsFit(d: Dir, parent: Option<Dir>)
    requires RootHasArea(d, parent)
    ensures Fits(DirRecord(d, DotKind(parent))) && Fits(DirRecord(ParentOf(d, parent), 2))
  {
    hide DirRecord, RecordSize;
    DotRecordSizes(d, parent);
  }

  /** What is asked of the children of one directory. */
  ghost predicate ChildrenRecordable(d: Dir) {
    && (forall i :: 0 <= i < |d.dirs| ==> DirEntrySize(d.dirs[i], 0) <= 255)
    && Recordable(d.files)
  }

  lemma {:induction false} ForestRecordableAll(ds: seq<Dir>)
    requires ForestRecordable(ds)
    ensures forall i :: 0 <= i < |ds| ==> DirEntrySize(ds[i], 0) <= 255
    decreases |ds|
  {
    hide DirEntrySize, Recordable;
    if ds != [] {
      ForestRecordableAll(ds[1..]);
      assert forall i :: 0 < i < |ds| ==> ds[i] == ds[1..][i - 1];
    }
  }

  lemma RecordsFit(d: Dir, parent: Option<Dir>)
    requires RootHasArea(d, parent) && ChildrenRecordable(d)
    ensures forall i :: 0 <= i < |ExtentRecords(d, parent)| ==> Fits(ExtentRecords(d, parent)[i])
  {
    hide DirRecord, FileRecord, RecordSize, DirEntrySize, FileEntrySize, Fits;
    DotsFit(d, parent);
    forall i | 0 <= i < |d.dirs|
      ensures Fits(DirRecord(d.dirs[i], 0))
    {
      DirRecordFits(d.dirs[i]);
    }
    forall i | 0 <= i < |d.files|
      ensures Fits(FileRecord(d.files[i]))
    {
      FileRecordFits(d.files[i]);
    }
  }

  lemma DirRecordFits(d: Dir)
    ensures Fits(DirRecord(d, 0)) <==> DirEntrySize(d, 0) <= 255
  {
    hide DirRecord, RecordSize, DirEntrySize;
    DirRecordSize(d, 0);
  }

  lemma FileRecordFits(f: File)
    ensures Fits(FileRecord(f)) <==> FileEntrySize(f) <= 255
  {
    hide FileRecord, RecordSize, FileEntrySize;
    FileRecordSize(f);
  }

  /** Scanning a written extent over its whole recorded length gives the entries of its records. */
  lemma ScanExtent(data: seq<byte>, d: Dir, parent: Option<Dir>, clock: Clock)
    requires ExtentFits(d, parent) && ChildrenRecordable(d)
    requires Holds(data, d.lba * 2048, ExtentBytes(d, parent, clock))
    ensures Scan(data, d.lba * 2048, d.lba * 2048 + ExtentBlocks(d) * 2048) == Some(EntriesOf(ExtentRecords(d, parent)))
  {
    hide Holds, Blank, Scan, ExtentRecords, ExtentBlocks, PackBytes, Fits, ChildrenRecordable, EntriesOf, Sizes,
         UsedSectors, ParseRecord, EntryOf, AlignUp, HeaderBytes, DirIdentifier, RecordsEnd, Place, RecordSize,
         RootHasArea;
    var rs, base := ExtentRecords(d, parent), d.lba * 2048;
    var end := base + ExtentBlocks(d) * 2048;
    RecordsFit(d, parent);
    RecordsEndBound(d, parent, clock);
    var last := RecordPos(d, parent, |rs|);
    assert end == (d.lba + ExtentBlocks(d)) * 2048;
    HoldsBoth(data, base, RecordBytesOf(d, parent, clock), Zeros(end - last));
    BlankIsZeros(data, last, end);
    ScanPacked(data, rs, base, clock, 0, end);
    assert EntriesOf(rs)[0..] == EntriesOf(rs);
  }

  lemma DirEntryOf(d: Dir, kind: nat)
    requires d.lba < 0x1_0000_0000 && ExtentBlocks(d) * 2048 < 0x1_0000_0000
    requires kind <= 3 && KindOk(d, kind) && (kind == 0 ==> DirEntrySize(d, 0) <= 255)
    ensures var e := EntryOf(DirRecord(d, kind));
      && e.identifier == DirIdentifier(d.name, kind) && ExtentOf(e) == Some(DirExtent(d)) && IsDirectory(e)
      && (kind == 0 ==> NameOf(FieldsOf(e)) == Some(d.name))
      && (kind == 3 ==> ContinuationOf(FieldsOf(e))
                        == Some(Continuation(U32(d.lba + ExtentBlocks(d)), 0, U32(|d.continuation.value|))))
  {
    hide ExtentBlocks, DirIdentifier, ReadFields, AttributesOf, NameOf, ContinuationOf, SuspFields, RockRidgeFields;
    DirFieldsRead(d, kind);
  }

  /** The record of the root in the volume descriptor: 34 bytes, no system use area, the block and length from which a
      reader starts. */
  lemma RootRecord(d: Dir)
    requires d.lba < 0x1_0000_0000 && ExtentBlocks(d) * 2048 < 0x1_0000_0000
    ensures DirEntrySize(d, 5) == RecordSize(DirRecord(d, 5)) == 34
    ensures EntryOf(DirRecord(d, 5)) == Entry([0], d.lba, ExtentBlocks(d) * 2048, 2, [])
  {
    hide ExtentBlocks;
  }

  /** The entries after "." and "..". */
  function ChildEntries(d: Dir): seq<Entry> {
    EntriesOf(DirRecords(d.dirs)) + EntriesOf(FileRecords(d.files))
  }

  lemma ExtentEntries(d: Dir, parent: Option<Dir>)
    ensures var es := EntriesOf(ExtentRecords(d, parent));
      && es[0] == EntryOf(DirRecord(d, DotKind(parent))) && es[1] == EntryOf(DirRecord(ParentOf(d, parent), 2))
      && es[2..] == ChildEntries(d)
  {
    hide EntryOf, DirRecord, FileRecord;
  }

  /** What the parent's extent has to say of it, if there is a parent. */
  function ParentExtent(parent: Option<Dir>): Option<Extent> {
    if parent.Some? then Some(DirExtent(parent.value)) else None
  }

  predicate Small32(d: Dir) {
    d.lba < 0x1_0000_0000 && ExtentBlocks(d) * 2048 < 0x1_0000_0000
  }

  /** Reading a directory whose extent is there comes down to reading its children. */
  lemma ReadOneDirectory(data: seq<byte>, d: Dir, parent: Option<Dir>, clock: Clock, depth: nat)
    requires ExtentFits(d, parent) && ChildrenRecordable(d)
    requires Holds(data, d.lba * 2048, ExtentBytes(d, parent, clock))
    requires Small32(d) && (parent.Some? ==> Small32(parent.value))
    ensures ReadDirectory(data, DirExtent(d), ParentExtent(parent), depth)
      == ReadEntries(data, ChildEntries(d), DirExtent(d), depth)
  {
    hide Holds, Scan, ExtentRecords, ExtentBlocks, ExtentFits, ChildrenRecordable, EntriesOf, ChildEntries, ReadEntries,
         EntryOf, DirRecord, ExtentOf, DirAttributes, ExtentBytes, ParentOf, DirIdentifier;
    ScanExtent(data, d, parent, clock);
    ExtentEntries(d, parent);
    DotsAre(d, parent);
  }

  /** "." gives the directory's own extent, ".." the parent's, or for the root its own block. */
  lemma DotsAre(d: Dir, parent: Option<Dir>)
    requires ExtentFits(d, parent) && Small32(d) && (parent.Some? ==> Small32(parent.value))
    ensures
      var dot, dotdot := EntryOf(DirRecord(d, DotKind(parent))), EntryOf(DirRecord(ParentOf(d, parent), 2));
      && dot.identifier == [0] && ExtentOf(dot) == Some(DirExtent(d)) && dotdot.identifier == [1]
      && (if parent.Some? then ExtentOf(dotdot) == Some(DirExtent(parent.value)) else dotdot.location == d.lba)
  {
    hide ExtentBlocks, ExtentFits, EntryOf, DirRecord, ExtentOf, DirExtent;
    HasArea(d, parent);
    DirEntryOf(d, DotKind(parent));
    if parent.Some? {
      DirEntryOf(parent.value, 2);
    } else {
      ParentEntryOf(ParentOf(d, parent));
    }
  }

  lemma HasArea(d: Dir, parent: Option<Dir>)
    requires ExtentFits(d, parent)
    ensures KindOk(d, DotKind(parent)) && ParentOf(d, parent) == if parent.Some? then parent.value else MadeUpParent(d)
  {
    hide ExtentBlocks, UsedSectors;
  }

  lemma ParentEntryOf(d: Dir)
    requires d.lba < 0x1_0000_0000
    ensures var e := EntryOf(DirRecord(d, 2)); e.identifier == [1] && e.location == d.lba
  {
    hide ExtentBlocks;
  }

  lemma FileEntryOf(f: File)
    requires FileEntrySize(f) <= 255 && f.size < 0x1_0000_0000 && f.lba < 0x1_0000_0000
    ensures var e := EntryOf(FileRecord(f));
      && e.identifier == ConvertName(f.name) + [0x3B, 0x31] && NameOf(FieldsOf(e)) == Some(f.name) && IsFile(e)
      && ExtentOf(e) == Some(Extent(f.lba, f.size, Attributes(0x81A4, 1, 0, 0, f.lba)))
  {
    hide ConvertName, ReadFields, AttributesOf, NameOf, PX, NM;
    FileFieldsRead(f);
  }

  lemma {:induction false} ReadFiles(data: seq<byte>, fs: seq<File>, self: Extent, depth: nat)
    requires Recordable(fs)
    ensures ReadEntries(data, EntriesOf(FileRecords(fs)), self, depth) == Some(ListFiles(fs))
    decreases |fs|
  {
    hide FileEntrySize, ConvertName, EntryOf, FileRecord, ExtentOf, NameOf, FieldsOf, IsFile;
    if fs == [] {
      assert EntriesOf(FileRecords(fs)) == [];
    } else {
      var es := EntriesOf(FileRecords(fs));
      assert es[1..] == EntriesOf(FileRecords(fs[1..]));
      FileEntryOf(fs[0]);
      ReadFiles(data, fs[1..], self, depth);
    }
  }

  /** A forest in an image: laid out from block `lba` on, fit to be read back, and written. */
  ghost predicate ForestHeld(data: seq<byte>, ds: seq<Dir>, parent: Dir, clock: Clock, lba: nat, depth: nat) {
    && Located(ds, lba) && ForestFits(ds, parent) && ForestRecordable(ds) && Depth(ds) <= depth
    && (lba + ForestBlocks(ds)) * 2048 < 0x1_0000_0000
    && Holds(data, lba * 2048, ForestBytes(ds, parent, clock))
  }

  lemma ForestHeldStep(data: seq<byte>, ds: seq<Dir>, parent: Dir, clock: Clock, lba: nat, depth: nat)
    requires ds != [] && ForestHeld(data, ds, parent, clock, lba, depth)
    ensures var d := ds[0];
      && depth > 0 && d.lba == lba && ExtentFits(d, Some(parent))
      && Small32(d) && DirEntrySize(d, 0) <= 255
      && Recordable(d.files) && ChildrenRecordable(d)
      && Holds(data, lba * 2048, ExtentBytes(d, Some(parent), clock))
      && ForestHeld(data, d.dirs, d, clock, lba + ExtentBlocks(d), depth - 1)
      && ForestHeld(data, ds[1..], parent, clock, lba + ExtentBlocks(d) + ForestBlocks(d.dirs), depth)
  {
    hide Holds, ExtentBlocks, ExtentBytes, Recordable, ExtentFits, DirEntrySize, ChildrenRecordable;
    var d := ds[0];
    HoldsBoth(data, lba * 2048, ExtentBytes(d, Some(parent), clock) + ForestBytes(d.dirs, d, clock),
              ForestBytes(ds[1..], parent, clock));
    HoldsBoth(data, lba * 2048, ExtentBytes(d, Some(parent), clock), ForestBytes(d.dirs, d, clock));
    ForestRecordableAll(d.dirs);
    ChildrenAreRecordable(d);
  }

  lemma EntriesStep(ds: seq<Dir>, fs: seq<File>)
    requires ds != []
    ensures var es := EntriesOf(DirRecords(ds)) + EntriesOf(FileRecords(fs));
      && es != [] && es[0] == EntryOf(DirRecord(ds[0], 0))
      && es[1..] == EntriesOf(DirRecords(ds[1..])) + EntriesOf(FileRecords(fs))
    ensures ListForest(ds) + ListFiles(fs)
        == [DirNode(ConvertName(ds[0].name), ds[0].name, DirExtent(ds[0]), Listing(ds[0]))]
           + (ListForest(ds[1..]) + ListFiles(fs))
  {
    hide EntryOf, DirRecord, FileRecord, ConvertName, DirExtent, ListFiles;
  }

  /** Reading the entries of a forest, with the files beside it, gives its listing. */
  lemma {:induction false} ReadForest(data: seq<byte>, ds: seq<Dir>, fs: seq<File>, parent: Dir, clock: Clock,
                                      lba: nat, depth: nat)
    requires ForestHeld(data, ds, parent, clock, lba, depth) && Recordable(fs) && Small32(parent)
    ensures ReadEntries(data, EntriesOf(DirRecords(ds)) + EntriesOf(FileRecords(fs)), DirExtent(parent), depth)
      == Some(ListForest(ds) + ListFiles(fs))
    decreases ds
  {
    hide Holds, ExtentBlocks, ReadDirectory, EntryOf, DirRecord, FileRecord, ListFiles, Recordable, ConvertName,
         EntriesOf, ExtentFits, ReadEntries, ChildrenRecordable, ForestHeld, ListForest, Scan, Located, ForestFits,
         ForestRecordable, Depth, ForestBlocks, ForestBytes, DirEntrySize, UsedSectors, ExtentBytes, ExtentRecords,
         DirRecords, FileRecords, DirExtent, ExtentOf, NameOf, FieldsOf, IsDirectory, Small32;
    if ds == [] {
      ReadFiles(data, fs, DirExtent(parent), depth);
      NothingListed(ds, fs);
    } else {
      var d := ds[0];
      ForestHeldStep(data, ds, parent, clock, lba, depth);
      ReadOneDirectory(data, d, Some(parent), clock, depth - 1);
      ReadForest(data, d.dirs, d.files, d, clock, lba + ExtentBlocks(d), depth - 1);
      ReadForest(data, ds[1..], fs, parent, clock, lba + ExtentBlocks(d) + ForestBlocks(d.dirs), depth);
      ForestEntryOf(d);
      EntriesStep(ds, fs);
      ReadEntriesStep(data, EntriesOf(DirRecords(ds)) + EntriesOf(FileRecords(fs)), DirExtent(parent), depth);
    }
  }

  lemma ForestEntryOf(d: Dir)
    requires Small32(d) && DirEntrySize(d, 0) <= 255
    ensures var e := EntryOf(DirRecord(d, 0));
      && e.identifier == ConvertName(d.name) && ExtentOf(e) == Some(DirExtent(d)) && IsDirectory(e)
      && NameOf(FieldsOf(e)) == Some(d.name)
  {
    hide ExtentBlocks, DirEntrySize, ExtentOf, FieldsOf, NameOf, DirExtent, EntryOf, DirRecord, ConvertName;
    DirEntryOf(d, 0);
  }

  lemma NothingListed(ds: seq<Dir>, fs: seq<File>)
    requires ds == []
    ensures EntriesOf(DirRecords(ds)) + EntriesOf(FileRecords(fs)) == EntriesOf(FileRecords(fs))
    ensures ListForest(ds) + ListFiles(fs) == ListFiles(fs)
  {
  }

  lemma ChildrenAreRecordable(d: Dir)
    requires (forall i :: 0 <= i < |d.dirs| ==> DirEntrySize(d.dirs[i], 0) <= 255) && Recordable(d.files)
    ensures ChildrenRecordable(d)
  {
  }

  lemma ReadEntriesStep(data: seq<byte>, es: seq<Entry>, self: Extent, depth: nat)
    requires es != [] && IsDirectory(es[0]) && depth > 0
    requires ExtentOf(es[0]).Some? && NameOf(FieldsOf(es[0])).Some?
    requires ReadEntries(data, es[1..], self, depth).Some?
    requires ReadDirectory(data, ExtentOf(es[0]).value, Some(self), depth - 1).Some?
    ensures ReadEntries(data, es, self, depth)
      == Some([DirNode(es[0].identifier, NameOf(FieldsOf(es[0])).value, ExtentOf(es[0]).value,
                       ReadDirectory(data, ExtentOf(es[0]).value, Some(self), depth - 1).value)]
              + ReadEntries(data, es[1..], self, depth).value)
  {
    hide ReadDirectory, ExtentOf, NameOf, FieldsOf;
  }

  /** The root's first record is where a reader starts. */
  lemma RootStarts(data: seq<byte>, root: Dir, clock: Clock)
    requires ExtentFits(root, None) && Small32(root)
    requires Holds(data, root.lba * 2048, ExtentBytes(root, None, clock))
    ensures ParseRecord(data, root.lba * 2048) == Some(EntryOf(DirRecord(root, 3)))
  {
    hide Holds, ExtentBlocks, PlacedBytes, Place, ParseRecord, EntryOf, DirRecord, UsedSectors, Fits, RecordBytes,
         RecordSize, PackBytes, ChildRecords;
    var rs, base := ExtentRecords(root, None), root.lba * 2048;
    RecordBytesFit(root, None, clock);
    var records := RecordBytesOf(root, None, clock);
    HoldsBoth(data, base, records, Zeros(ExtentBlocks(root) * 2048 - |records|));
    HoldsPacked(data, rs, |rs|, base, clock, 0);
    DotsFit(root, None);
    FirstIsPlaced(DirRecord(root, 3), root.lba, clock);
    ParseWritten(data, base, DirRecord(root, 3), clock(base));
  }

  lemma FirstIsPlaced(r: Record, block: nat, clock: Clock)
    requires Fits(r)
    ensures PlacedBytes(r, block * 2048, clock) == RecordBytes(r, clock(block * 2048))
    ensures PackTo(block * 2048, [], 0) == block * 2048
  {
    hide RecordBytes, RecordSize;
    assert AlignUp(block * 2048) == block * 2048;
    assert Zeros(0) + RecordBytes(r, clock(block * 2048)) == RecordBytes(r, clock(block * 2048));
  }

  /** Directory round trip: from the root's block and recorded length alone, a reader finds exactly the nested list of
      identifiers, full names, blocks, lengths and attributes of the tree, every ".." with what the parent was found
      with, and behind the root's extent the continuation area. */
  lemma DirectoryRoundTrip(data: seq<byte>, root: Dir, clock: Clock, depth: nat)
    requires TreeFits(root, None) && Located(root.dirs, KidsBlock(root))
    requires ForestRecordable(root.dirs) && Recordable(root.files) && Depth(root.dirs) <= depth
    requires TreeEnd(root) * 2048 < 0x1_0000_0000
    requires Holds(data, root.lba * 2048, TreeBytes(root, None, clock))
    ensures root.continuation.Some?
    ensures ReadRoot(data, root.lba, ExtentBlocks(root) * 2048, depth)
      == Some(Root(DirAttributes(root), root.continuation.value, Listing(root)))
  {
    hide Holds, ExtentBlocks, ReadDirectory, ExtentBytes, EntryOf, DirRecord, FileRecord, ListFiles, Recordable,
         DirEntrySize, ReadEntries, ChildrenRecordable, ForestBytes, ParseRecord, FieldsOf, AttributesOf,
         ContinuationOf, UsedSectors, DirAttributes, EntriesOf;
    var base := root.lba * 2048;
    HoldsBoth(data, base, ExtentBytes(root, None, clock) + AreaBytes(root), ForestBytes(root.dirs, root, clock));
    HoldsBoth(data, base, ExtentBytes(root, None, clock), AreaBytes(root));
    ForestRecordableAll(root.dirs);
    ChildrenAreRecordable(root);
    RootStarts(data, root, clock);
    DirEntryOf(root, 3);
    var area := root.continuation.value;
    var block := root.lba + ExtentBlocks(root);
    HoldsBoth(data, block * 2048, area, Zeros(2048 - |area|));
    ReadBytesHeld(data, block * 2048 + 0, area);
    ReadOneDirectory(data, root, None, clock, depth);
    ReadForest(data, root.dirs, root.files, root, clock, KidsBlock(root), depth);
  }
}
