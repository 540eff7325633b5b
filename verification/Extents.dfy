/** Writing the directory extents (directory_entry.rs:348-414): every directory seeks to its own block in
    the middle of its parent's records and back again. The result is the plain concatenation of the extents. */
module Extents {
  import opened Bytes
  import opened Image
  import opened Packing
  import opened DirectoryTree
  import opened Records
  import opened Layout

  // ---------------------------------------------------------------- the bytes of one extent

  function Sizes(rs: seq<Record>): (sizes: seq<nat>)
    ensures |sizes| == |rs| && forall i :: 0 <= i < |rs| ==> sizes[i] == RecordSize(rs[i])
  {
    seq(|rs|, i requires 0 <= i < |rs| => RecordSize(rs[i]))
  }

  /** The first `k` records, packed from position `pos` on. */
  function PackBytes(rs: seq<Record>, k: nat, pos: nat, clock: Clock): (bytes: seq<byte>)
    requires k <= |rs|
    ensures pos + |bytes| == PackTo(pos, Sizes(rs), k)
  {
    if k == 0 then []
    else PackBytes(rs, k - 1, pos, clock) + PlacedBytes(rs[k - 1], PackTo(pos, Sizes(rs), k - 1), clock)
  }

  /** The root's "..": an entry made up for it, with the root's block and no children (directory_entry.rs:365-375). */
  function MadeUpParent(root: Dir): Dir {
    Dir([0x64, 0x75, 0x6D, 0x6D, 0x79], 0, 0, root.lba, [], [], None)
  }

  function ParentOf(d: Dir, parent: Option<Dir>): Dir {
    if parent.Some? then parent.value else MadeUpParent(d)
  }

  function DotKind(parent: Option<Dir>): nat {
    if parent.Some? then 1 else 3
  }

  function DirRecords(ds: seq<Dir>): (rs: seq<Record>)
    ensures |rs| == |ds| && forall i :: 0 <= i < |ds| ==> rs[i] == DirRecord(ds[i], 0)
  {
    seq(|ds|, i requires 0 <= i < |ds| => DirRecord(ds[i], 0))
  }

  function FileRecords(fs: seq<File>): (rs: seq<Record>)
    ensures |rs| == |fs| && forall i :: 0 <= i < |fs| ==> rs[i] == FileRecord(fs[i])
  {
    seq(|fs|, i requires 0 <= i < |fs| => FileRecord(fs[i]))
  }

  function ChildRecords(d: Dir): (rs: seq<Record>)
    ensures |rs| == |d.dirs| + |d.files|
  {
    DirRecords(d.dirs) + FileRecords(d.files)
  }

  /** "." and "..". */
  function DotRecords(d: Dir, parent: Option<Dir>): seq<Record> {
    [DirRecord(d, DotKind(parent)), DirRecord(ParentOf(d, parent), 2)]
  }

  /** All records of an extent: "." and "..", the child directories, the files. */
  function ExtentRecords(d: Dir, parent: Option<Dir>): (rs: seq<Record>)
    ensures |rs| == 2 + |d.dirs| + |d.files|
  {
    DotRecords(d, parent) + ChildRecords(d)
  }

  /** Section 6.8.2.2 makes the root its own parent, so its two first records should give the same extent. They
      give the same block always, but the same length exactly when the root takes one sector. */
  lemma RootParentRecord(root: Dir)
    requires ExtentBlocks(root) * 2048 < 0x1_0000_0000
    ensures var dot, dotdot := DotRecords(root, None)[0], DotRecords(root, None)[1];
      && dot.location == dotdot.location && dotdot.length == 2048
      && (dot.length == dotdot.length <==> ExtentBlocks(root) == 1)
  {
    hide ExtentBlocks, SuspFields, RockRidgeFields;
    MadeUpBlocks(root);
  }

  /** A root of nine directories, whose "." and ".." give different lengths. */
  lemma RootParentDiffers()
    ensures var dots := DotRecords(Siblings(141), None); dots[0].length == 4096 && dots[1].length == 2048
  {
    hide ExtentBlocks, SuspFields, RockRidgeFields, Siblings;
    TwoSectorRoot();
    RootParentRecord(Siblings(141));
  }

  lemma MadeUpBlocks(root: Dir)
    ensures ExtentBlocks(MadeUpParent(root)) == 1
  {
    assert ChildSizes(MadeUpParent(root)) == [];
  }

  /** The root, and only the root, has a continuation area. */
  predicate RootHasArea(d: Dir, parent: Option<Dir>) {
    d.continuation.Some? <==> parent.None?
  }

  function DotsEnd(parent: Option<Dir>): nat {
    if parent.None? then ROOT_DOTS else CHILD_DOTS
  }

  lemma DotRecordSizes(d: Dir, parent: Option<Dir>)
    requires RootHasArea(d, parent)
    ensures RecordSize(DirRecord(d, DotKind(parent))) == DotsEnd(parent) - 78
    ensures RecordSize(DirRecord(ParentOf(d, parent), 2)) == 78
  {
    hide DirRecord, RecordSize;
    DirRecordSize(d, DotKind(parent));
    DirRecordSize(ParentOf(d, parent), 2);
  }

  lemma ChildRecordSizes(d: Dir)
    ensures Sizes(ChildRecords(d)) == ChildSizes(d)
  {
    hide DirRecord, FileRecord, RecordSize, DirEntrySize, FileEntrySize;
    forall i | 0 <= i < |d.dirs|
      ensures RecordSize(DirRecord(d.dirs[i], 0)) == DirEntrySize(d.dirs[i], 0)
    {
      DirRecordSize(d.dirs[i], 0);
    }
    forall i | 0 <= i < |d.files|
      ensures RecordSize(FileRecord(d.files[i])) == FileEntrySize(d.files[i])
    {
      FileRecordSize(d.files[i]);
    }
    assert Sizes(ChildRecords(d)) == DirSizes(d.dirs) + FileSizes(d.files);
  }

  /** The records of an extent end where the packing of the sizes says. */
  lemma ExtentPacking(d: Dir, parent: Option<Dir>, k: nat)
    requires RootHasArea(d, parent) && k <= |d.dirs| + |d.files|
    ensures |ChildSizes(d)| == |d.dirs| + |d.files|
    ensures PackTo(d.lba * 2048, Sizes(ExtentRecords(d, parent)), 2 + k)
      == d.lba * 2048 + PackTo(DotsEnd(parent), ChildSizes(d), k)
  {
    hide DirRecord, FileRecord, RecordSize, ChildSizes, ChildRecords, Place;
    var sizes := Sizes(ExtentRecords(d, parent));
    ChildRecordSizes(d);
    assert sizes[2..] == Sizes(ChildRecords(d));
    DotRecordSizes(d, parent);
    var base := d.lba * 2048;
    PlaceAtStart(d.lba, sizes[0], sizes[1]);
    assert PackTo(base, sizes, 1) == Place(base, sizes[0]);
    assert PackTo(base, sizes, 2) == Place(Place(base, sizes[0]), sizes[1]);
    hide PackTo;
    PackSplit(base, sizes, 2, k);
    PackShift(d.lba, DotsEnd(parent), ChildSizes(d), k);
  }

  lemma PlaceAtStart(block: nat, a: nat, b: nat)
    requires a <= 113 && b <= 113
    ensures Place(Place(block * 2048, a), b) == block * 2048 + a + b
  {
  }

  // ---------------------------------------------------------------- whole extents and forests

  /** The real packing of the directory stays within its reservation. */
  predicate ExtentFits(d: Dir, parent: Option<Dir>) {
    RootHasArea(d, parent) && UsedSectors(d, parent.None?) <= ExtentBlocks(d)
  }

  /** All extents of the forest stay within their reservations. */
  ghost predicate ForestFits(ds: seq<Dir>, parent: Dir)
    decreases ds
  {
    ds == [] || (ExtentFits(ds[0], Some(parent)) && ForestFits(ds[0].dirs, ds[0]) && ForestFits(ds[1..], parent))
  }

  /** All records of an extent. */
  function RecordBytesOf(d: Dir, parent: Option<Dir>, clock: Clock): seq<byte> {
    PackBytes(ExtentRecords(d, parent), 2 + |d.dirs| + |d.files|, d.lba * 2048, clock)
  }

  lemma RecordBytesFit(d: Dir, parent: Option<Dir>, clock: Clock)
    requires ExtentFits(d, parent)
    ensures |RecordBytesOf(d, parent, clock)| == RecordsEnd(d, parent.None?)
    ensures AlignUp(|RecordBytesOf(d, parent, clock)|) <= ExtentBlocks(d) * 2048
  {
    hide PackBytes, ExtentRecords, ExtentBlocks, ChildSizes, PackTo, Sizes;
    ExtentPacking(d, parent, |d.dirs| + |d.files|);
  }

  /** The reserved blocks of a directory: its records, then zeros. */
  function ExtentBytes(d: Dir, parent: Option<Dir>, clock: Clock): (bytes: seq<byte>)
    requires ExtentFits(d, parent)
    ensures |bytes| == ExtentBlocks(d) * 2048
  {
    RecordBytesFit(d, parent, clock);
    var records := RecordBytesOf(d, parent, clock);
    records + Zeros(ExtentBlocks(d) * 2048 - |records|)
  }

  /** The block of the continuation area, right behind the root's extent. */
  function AreaBytes(d: Dir): (bytes: seq<byte>)
    requires d.continuation.Some? ==> |d.continuation.value| <= 2048
    ensures |bytes| == ContinuationBlocks(d) * 2048
  {
    if d.continuation.None? then [] else d.continuation.value + Zeros(2048 - |d.continuation.value|)
  }

  /** The extents of a forest one behind the other, each directory right before what is below it. */
  function ForestBytes(ds: seq<Dir>, parent: Dir, clock: Clock): (bytes: seq<byte>)
    requires ForestFits(ds, parent)
    ensures |bytes| == ForestBlocks(ds) * 2048
    decreases ds
  {
    if ds == [] then []
    else
      ExtentBytes(ds[0], Some(parent), clock) + ForestBytes(ds[0].dirs, ds[0], clock)
      + ForestBytes(ds[1..], parent, clock)
  }

  /** A directory with all that is below it. */
  ghost predicate TreeFits(d: Dir, parent: Option<Dir>) {
    && ExtentFits(d, parent) && ForestFits(d.dirs, d)
    && (d.continuation.Some? ==> |d.continuation.value| <= 2048)
  }

  function TreeBytes(d: Dir, parent: Option<Dir>, clock: Clock): (bytes: seq<byte>)
    requires TreeFits(d, parent)
    ensures |bytes| == (TreeEnd(d) - d.lba) * 2048
  {
    ExtentBytes(d, parent, clock) + AreaBytes(d) + ForestBytes(d.dirs, d, clock)
  }

  /** Block of the first extent below a directory, and the block behind the last one. */
  function KidsBlock(d: Dir): nat {
    d.lba + ExtentBlocks(d) + ContinuationBlocks(d)
  }

  function TreeEnd(d: Dir): nat {
    KidsBlock(d) + ForestBlocks(d.dirs)
  }

  /** The extents of the forest are where `ForestBytes` has them, if it starts at block `lba`. */
  ghost predicate Located(ds: seq<Dir>, lba: nat)
    decreases ds
  {
    ds == [] ||
    (var d := ds[0];
     && d.lba == lba
     && Located(d.dirs, lba + ExtentBlocks(d))
     && Located(ds[1..], lba + ExtentBlocks(d) + ForestBlocks(d.dirs)))
  }

  lemma {:induction false} LaidIsLocated(ds: seq<Dir>, first: nat, parent: nat, lastIndex: nat, lba: nat)
    requires Laid(ds, first, parent, lastIndex, lba)
    ensures Located(ds, lba)
    decreases ds
  {
    hide ExtentBlocks, ForestBlocks;
    if ds != [] {
      var d := ds[0];
      LaidIsLocated(d.dirs, lastIndex + 1, first, lastIndex + |d.dirs|, lba + ExtentBlocks(d));
      LaidIsLocated(ds[1..], first + 1, parent, lastIndex + |d.dirs| + Below(d.dirs),
                    lba + ExtentBlocks(d) + ForestBlocks(d.dirs));
    }
  }

  // ---------------------------------------------------------------- writing

  /** The state while the extent of `d` is being written: the first `k` records are there, and behind the
      reservation, up to block `cursor`, the extents `done` of the children seen; all the rest is untouched. */
  ghost predicate Progress(before: seq<byte>, data: seq<byte>, d: Dir, parent: Option<Dir>, clock: Clock,
                           k: nat, done: seq<byte>, cursor: nat)
    requires k <= 2 + |d.dirs| + |d.files|
  {
    && Holds(data, d.lba * 2048, PackBytes(ExtentRecords(d, parent), k, d.lba * 2048, clock))
    && Blank(data, RecordPos(d, parent, k), KidsBlock(d) * 2048)
    && Holds(data, KidsBlock(d) * 2048, done)
    && KidsBlock(d) * 2048 + |done| == cursor * 2048
    && Blank(data, cursor * 2048, TreeEnd(d) * 2048)
    && SameOutside(before, data, d.lba * 2048, TreeEnd(d) * 2048)
  }

  /** Where the k-th record is due. */
  function RecordPos(d: Dir, parent: Option<Dir>, k: nat): nat
    requires k <= 2 + |d.dirs| + |d.files|
  {
    PackTo(d.lba * 2048, Sizes(ExtentRecords(d, parent)), k)
  }

  lemma RecordPosBound(d: Dir, parent: Option<Dir>, k: nat)
    requires ExtentFits(d, parent) && k < 2 + |d.dirs| + |d.files|
    ensures var size := RecordSize(ExtentRecords(d, parent)[k]);
      RecordPos(d, parent, k + 1) == Place(RecordPos(d, parent, k), size)
    ensures d.lba * 2048 <= RecordPos(d, parent, k) <= RecordPos(d, parent, k + 1) - 33
    ensures RecordPos(d, parent, k + 1) <= (d.lba + ExtentBlocks(d)) * 2048
  {
    hide ExtentRecords, RecordSize, ExtentBlocks, ChildSizes, PackTo, Gap;
    var all := 2 + |d.dirs| + |d.files|;
    var sizes := Sizes(ExtentRecords(d, parent));
    assert PackTo(d.lba * 2048, sizes, k + 1) == Place(PackTo(d.lba * 2048, sizes, k), sizes[k]) by {
      PackToStep(d.lba * 2048, sizes, k);
    }
    PackForward(d.lba * 2048, sizes, k + 1, all);
    ExtentPacking(d, parent, |d.dirs| + |d.files|);
  }

  /** One more record is written where it is due. */
  lemma RecordStep(before: seq<byte>, data: seq<byte>, d: Dir, parent: Option<Dir>, clock: Clock,
                   k: nat, done: seq<byte>, cursor: nat)
    requires ExtentFits(d, parent) && k < 2 + |d.dirs| + |d.files|
    requires Progress(before, data, d, parent, clock, k, done, cursor)
    ensures var pos := RecordPos(d, parent, k);
      var bytes := PlacedBytes(ExtentRecords(d, parent)[k], pos, clock);
      && pos + |bytes| == RecordPos(d, parent, k + 1)
      && Progress(before, Overwrite(data, pos, bytes), d, parent, clock, k + 1, done, cursor)
      && (WholeSectors(data) || |data| <= pos ==> EndsAt(Overwrite(data, pos, bytes), RecordPos(d, parent, k + 1)))
  {
    hide Holds, Blank, SameOutside, Overwrite, PlacedBytes, ExtentRecords, ExtentBlocks, ForestBlocks, ChildSizes,
         PackBytes, Place;
    var rs := ExtentRecords(d, parent);
    var base, pos := d.lba * 2048, RecordPos(d, parent, k);
    var bytes := PlacedBytes(rs[k], pos, clock);
    var data' := Overwrite(data, pos, bytes);
    RecordPosBound(d, parent, k);
    if WholeSectors(data) || |data| <= pos {
      EndsAfter(data, pos, bytes);
    }
    PackBytesStep(rs, k, base, clock);
    OverwriteAppends(data, base, PackBytes(rs, k, base, clock), bytes);
    OverwriteFrame(data, pos, bytes);
    var next := pos + |bytes|;
    BlankPart(data, pos, KidsBlock(d) * 2048, next, KidsBlock(d) * 2048);
    BlankKept(data, data', pos, next, next, KidsBlock(d) * 2048);
    HoldsKept(data, data', pos, next, KidsBlock(d) * 2048, done);
    BlankKept(data, data', pos, next, cursor * 2048, TreeEnd(d) * 2048);
    SameOutsideTwice(before, data, data', base, TreeEnd(d) * 2048, pos, next);
  }

  lemma PackBytesStep(rs: seq<Record>, k: nat, pos: nat, clock: Clock)
    requires k < |rs|
    ensures PackBytes(rs, k + 1, pos, clock)
      == PackBytes(rs, k, pos, clock) + PlacedBytes(rs[k], PackTo(pos, Sizes(rs), k), clock)
  {
    hide PlacedBytes, PackTo, Sizes;
  }

  /** One more child has been written with all that is below it. */
  lemma ChildStep(before: seq<byte>, data: seq<byte>, data': seq<byte>, d: Dir, parent: Option<Dir>, clock: Clock,
                  k: nat, done: seq<byte>, cursor: nat, child: seq<byte>, cursor': nat)
    requires k <= 2 + |d.dirs| + |d.files|
    requires Progress(before, data, d, parent, clock, k, done, cursor)
    requires RecordPos(d, parent, k) <= KidsBlock(d) * 2048
    requires cursor * 2048 + |child| == cursor' * 2048 && cursor' <= TreeEnd(d)
    requires SameOutside(data, data', cursor * 2048, cursor' * 2048) && Holds(data', cursor * 2048, child)
    ensures Progress(before, data', d, parent, clock, k, done + child, cursor')
  {
    hide Holds, Blank, SameOutside, ExtentRecords, ExtentBlocks, ForestBlocks, PackBytes, PackTo;
    var lo, hi, kids := cursor * 2048, cursor' * 2048, KidsBlock(d) * 2048;
    HoldsKept(data, data', lo, hi, d.lba * 2048, PackBytes(ExtentRecords(d, parent), k, d.lba * 2048, clock));
    BlankKept(data, data', lo, hi, RecordPos(d, parent, k), kids);
    HoldsKept(data, data', lo, hi, kids, done);
    HoldsBoth(data', kids, done, child);
    BlankPart(data, lo, TreeEnd(d) * 2048, hi, TreeEnd(d) * 2048);
    BlankKept(data, data', lo, hi, hi, TreeEnd(d) * 2048);
    SameOutsideTwice(before, data, data', d.lba * 2048, TreeEnd(d) * 2048, lo, hi);
  }

  /** Where nothing is written yet, everything is in order. */
  lemma ProgressStarts(data: seq<byte>, d: Dir, parent: Option<Dir>, clock: Clock)
    requires Blank(data, d.lba * 2048, TreeEnd(d) * 2048)
    ensures RecordPos(d, parent, 0) == d.lba * 2048
    ensures Progress(data, data, d, parent, clock, 0, [], KidsBlock(d))
  {
    hide ExtentRecords, ExtentBlocks, ForestBlocks;
  }

  /** Zeros written over a blank range change nothing that can be read. */
  lemma ZerosOverBlank(data: seq<byte>, lo: nat, hi: nat, pos: nat, n: nat)
    requires Blank(data, lo, hi) && lo <= pos && pos + n <= hi
    ensures SameOutside(data, Overwrite(data, pos, Zeros(n)), 0, 0)
  {
  }

  /** The records with zeros behind them are the extent. */
  lemma ExtentHeld(data: seq<byte>, d: Dir, parent: Option<Dir>, clock: Clock)
    requires ExtentFits(d, parent)
    requires Holds(data, d.lba * 2048, RecordBytesOf(d, parent, clock))
    requires Blank(data, RecordPos(d, parent, 2 + |d.dirs| + |d.files|), (d.lba + ExtentBlocks(d)) * 2048)
    ensures Holds(data, d.lba * 2048, ExtentBytes(d, parent, clock))
  {
    hide Holds, Blank, ExtentRecords, ExtentBlocks, PackBytes, PackTo;
    var end := RecordPos(d, parent, 2 + |d.dirs| + |d.files|);
    RecordBytesFit(d, parent, clock);
    BlankIsZeros(data, end, (d.lba + ExtentBlocks(d)) * 2048);
    HoldsBoth(data, d.lba * 2048, RecordBytesOf(d, parent, clock), Zeros((d.lba + ExtentBlocks(d)) * 2048 - end));
  }

  /** With all records written, the padding, and the continuation area behind it, the whole tree is there. */
  lemma ProgressEnds(before: seq<byte>, data: seq<byte>, d: Dir, parent: Option<Dir>, clock: Clock, data': seq<byte>)
    requires TreeFits(d, parent)
    requires Progress(before, data, d, parent, clock, 2 + |d.dirs| + |d.files|, ForestBytes(d.dirs, d, clock),
                      TreeEnd(d))
    requires
      var area := (d.lba + ExtentBlocks(d)) * 2048;
      SameOutside(data, data', area, area + |AreaBytes(d)|) && Holds(data', area, AreaBytes(d))
    ensures Holds(data', d.lba * 2048, TreeBytes(d, parent, clock))
    ensures SameOutside(before, data', d.lba * 2048, TreeEnd(d) * 2048)
  {
    hide Holds, Blank, SameOutside, ExtentRecords, ExtentBlocks, ForestBlocks, ForestBytes, PackBytes, RecordPos,
         AreaBytes, ExtentBytes, ExtentFits, ForestFits;
    var base, area, kids := d.lba * 2048, (d.lba + ExtentBlocks(d)) * 2048, KidsBlock(d) * 2048;
    var end := RecordPos(d, parent, 2 + |d.dirs| + |d.files|);
    RecordsEndBound(d, parent, clock);
    BlankPart(data, end, kids, end, area);
    HoldsKept(data, data', area, kids, base, RecordBytesOf(d, parent, clock));
    BlankKept(data, data', area, kids, end, area);
    ExtentHeld(data', d, parent, clock);
    HoldsKept(data, data', area, kids, kids, ForestBytes(d.dirs, d, clock));
    HoldsBoth(data', base, ExtentBytes(d, parent, clock), AreaBytes(d));
    HoldsBoth(data', base, ExtentBytes(d, parent, clock) + AreaBytes(d), ForestBytes(d.dirs, d, clock));
    SameOutsideTwice(before, data, data', base, TreeEnd(d) * 2048, area, kids);
  }

  lemma RecordsEndBound(d: Dir, parent: Option<Dir>, clock: Clock)
    requires ExtentFits(d, parent)
    ensures d.lba * 2048 + |RecordBytesOf(d, parent, clock)| == RecordPos(d, parent, 2 + |d.dirs| + |d.files|)
    ensures RecordPos(d, parent, 2 + |d.dirs| + |d.files|) <= (d.lba + ExtentBlocks(d)) * 2048
  {
    hide ExtentRecords, ExtentBlocks, PackBytes, PackTo;
    RecordBytesFit(d, parent, clock);
  }

  /** `write_continuation_area`. */
  method WriteContinuationArea(w: Writer, d: Dir)
    requires w.Valid() && (d.continuation.Some? ==> |d.continuation.value| <= 2048)
    requires (d.lba + ExtentBlocks(d)) * 2048 < 0x1_0000_0000
    requires Blank(w.data, (d.lba + ExtentBlocks(d)) * 2048, (d.lba + ExtentBlocks(d) + ContinuationBlocks(d)) * 2048)
    modifies w
    ensures w.Valid() && w.pos == old(w.pos)
    ensures
      var area := (d.lba + ExtentBlocks(d)) * 2048;
      SameOutside(old(w.data), w.data, area, area + |AreaBytes(d)|) && Holds(w.data, area, AreaBytes(d))
    ensures |w.data| >= |old(w.data)| && (WholeSectors(old(w.data)) ==> WholeSectors(w.data))
  {
    hide Overwrite, ExtentBlocks, Holds, SameOutside, Blank, Padding, AreaBytes;
    AreaWritten(w.data, d);
    if d.continuation.Some? {
      var bytes := d.continuation.value;
      var oldPos := w.pos;
      w.SeekTo(U32((d.lba + ExtentBlocks(d)) * 2048));
      w.WriteAll(bytes);
      assert w.run == bytes;
      PadSector(w);
      w.SeekTo(oldPos);
    }
  }

  /** The area and the zeros that complete its sector. */
  lemma AreaWritten(data: seq<byte>, d: Dir)
    requires d.continuation.Some? ==> |d.continuation.value| <= 2048
    requires Blank(data, (d.lba + ExtentBlocks(d)) * 2048, (d.lba + ExtentBlocks(d) + ContinuationBlocks(d)) * 2048)
    ensures
      var area, bytes := (d.lba + ExtentBlocks(d)) * 2048, if d.continuation.Some? then d.continuation.value else [];
      var data' := Overwrite(Overwrite(data, area, bytes), area + |bytes|, Padding(area + |bytes|));
      && (d.continuation.None? ==>
            SameOutside(data, data, area, area + |AreaBytes(d)|) && Holds(data, area, AreaBytes(d)))
      && (d.continuation.Some? ==>
            && SameOutside(data, data', area, area + |AreaBytes(d)|) && Holds(data', area, AreaBytes(d))
            && |data'| >= |data| && (WholeSectors(data) ==> WholeSectors(data')))
  {
    hide Overwrite, ExtentBlocks;
    if d.continuation.Some? {
      AlignUpShift(d.lba + ExtentBlocks(d), |d.continuation.value|);
    }
  }

  /** The child after `k` others is where the extents done so far end. */
  lemma LocatedStep(ds: seq<Dir>, k: nat, cursor: nat)
    requires k < |ds| && Located(ds[k..], cursor)
    ensures ds[k].lba == cursor && Located(ds[k].dirs, cursor + ExtentBlocks(ds[k]))
    ensures Located(ds[k + 1..], cursor + ExtentBlocks(ds[k]) + ForestBlocks(ds[k].dirs))
    ensures ForestBlocks(ds[k..]) == ExtentBlocks(ds[k]) + ForestBlocks(ds[k].dirs) + ForestBlocks(ds[k + 1..])
  {
    hide ExtentBlocks;
    assert ds[k..][1..] == ds[k + 1..];
  }

  lemma ForestBytesStep(ds: seq<Dir>, k: nat, parent: Dir, clock: Clock)
    requires k < |ds| && ForestFits(ds[k..], parent)
    ensures TreeFits(ds[k], Some(parent)) && ForestFits(ds[k + 1..], parent)
    ensures ContinuationBlocks(ds[k]) == 0
    ensures ForestBytes(ds[k..], parent, clock)
      == TreeBytes(ds[k], Some(parent), clock) + ForestBytes(ds[k + 1..], parent, clock)
  {
    hide ExtentBlocks, UsedSectors, ExtentBytes;
    assert ds[k..][1..] == ds[k + 1..];
    assert AreaBytes(ds[k]) == [];
    var own := ExtentBytes(ds[k], Some(parent), clock);
    assert own + [] == own;
  }

  /** A record of `size` bytes can be written at `pos` without leaving the positions that fit an i32. */
  predicate PositionOk(pos: nat, size: nat) {
    pos + 2047 < 0x8000_0000 && Place(pos, size) < 0x8000_0000
  }

  lemma PositionIsOk(d: Dir, parent: Option<Dir>, k: nat)
    requires ExtentFits(d, parent) && k < 2 + |d.dirs| + |d.files| && TreeEnd(d) * 2048 < 0x8000_0000
    ensures PositionOk(RecordPos(d, parent, k), RecordSize(ExtentRecords(d, parent)[k]))
    ensures RecordPos(d, parent, k) <= KidsBlock(d) * 2048 && RecordPos(d, parent, k + 1) <= KidsBlock(d) * 2048
  {
    hide ExtentRecords, RecordSize, ExtentBlocks, ForestBlocks, RecordPos;
    RecordPosBound(d, parent, k);
  }

  lemma DotsReady(d: Dir, parent: Option<Dir>)
    requires ExtentFits(d, parent) && TreeEnd(d) * 2048 < 0x8000_0000
    ensures KindOk(d, DotKind(parent))
    ensures ExtentRecords(d, parent)[0] == DirRecord(d, DotKind(parent))
    ensures ExtentRecords(d, parent)[1] == DirRecord(ParentOf(d, parent), 2)
    ensures PositionOk(RecordPos(d, parent, 0), DirEntrySize(d, DotKind(parent)))
    ensures PositionOk(RecordPos(d, parent, 1), DirEntrySize(ParentOf(d, parent), 2))
  {
    hide DirRecord, RecordSize, ExtentBlocks, ForestBlocks, RecordPos, PositionOk, ChildRecords, DirEntrySize;
    DirRecordSize(d, DotKind(parent));
    DirRecordSize(ParentOf(d, parent), 2);
    PositionIsOk(d, parent, 0);
    PositionIsOk(d, parent, 1);
  }

  lemma DirReady(d: Dir, parent: Option<Dir>, k: nat)
    requires ExtentFits(d, parent) && k < |d.dirs| && TreeEnd(d) * 2048 < 0x8000_0000
    ensures ExtentRecords(d, parent)[2 + k] == DirRecord(d.dirs[k], 0)
    ensures PositionOk(RecordPos(d, parent, 2 + k), DirEntrySize(d.dirs[k], 0))
    ensures RecordPos(d, parent, 3 + k) <= KidsBlock(d) * 2048
  {
    hide DirRecord, RecordSize, ExtentBlocks, ForestBlocks, RecordPos, PositionOk, DirEntrySize;
    DirRecordSize(d.dirs[k], 0);
    PositionIsOk(d, parent, 2 + k);
  }

  lemma FileReady(d: Dir, parent: Option<Dir>, k: nat)
    requires ExtentFits(d, parent) && k < |d.files| && TreeEnd(d) * 2048 < 0x8000_0000
    ensures ExtentRecords(d, parent)[2 + |d.dirs| + k] == FileRecord(d.files[k])
    ensures PositionOk(RecordPos(d, parent, 2 + |d.dirs| + k), FileEntrySize(d.files[k]))
  {
    hide DirRecord, RecordSize, ExtentBlocks, ForestBlocks, RecordPos, PositionOk, FileRecord, FileEntrySize;
    FileRecordSize(d.files[k]);
    PositionIsOk(d, parent, 2 + |d.dirs| + k);
  }

  /** `write_extent`. A directory writes its records at its own blocks; in between, each child directory seeks
      away, writes itself with all below it, and comes back. What results is the concatenation of the extents. */
  method WriteExtent(w: Writer, d: Dir, parent: Option<Dir>, clock: Clock)
    requires w.Valid() && TreeFits(d, parent) && Located(d.dirs, KidsBlock(d)) && TreeEnd(d) * 2048 < 0x8000_0000
    requires Blank(w.data, d.lba * 2048, TreeEnd(d) * 2048)
    requires WholeSectors(w.data) || |w.data| <= d.lba * 2048
    modifies w
    ensures w.Valid() && w.pos == old(w.pos) && WholeSectors(w.data)
    ensures SameOutside(old(w.data), w.data, d.lba * 2048, TreeEnd(d) * 2048)
    ensures Holds(w.data, d.lba * 2048, TreeBytes(d, parent, clock))
    ensures |w.data| >= |old(w.data)|
    decreases d
  {
    hide Holds, Blank, SameOutside, Overwrite, PlacedBytes, ExtentBlocks, ForestBlocks, UsedSectors, DirEntrySize,
         FileEntrySize, RecordSize, DirRecord, FileRecord, ForestBytes, TreeBytes, Progress, Located, ForestFits,
         AreaBytes, ExtentRecords, RecordPos, Place, Gap, AlignUp;
    ghost var before := w.data;
    var oldPos := w.pos;
    w.SeekTo(U32(d.lba * 2048));
    ghost var done: seq<byte>, cursor: nat := [], KidsBlock(d);
    ProgressStarts(before, d, parent, clock);
    DotsReady(d, parent);
    RecordStep(before, w.data, d, parent, clock, 0, done, cursor);
    WriteDirEntry(w, d, DotKind(parent), clock);
    RecordStep(before, w.data, d, parent, clock, 1, done, cursor);
    WriteDirEntry(w, ParentOf(d, parent), 2, clock);
    assert d.dirs[0..] == d.dirs;
    for k := 0 to |d.dirs|
      invariant w.Valid() && w.pos == RecordPos(d, parent, 2 + k) && |w.data| >= |before| && EndsAt(w.data, w.pos)
      invariant Progress(before, w.data, d, parent, clock, 2 + k, done, cursor) && KidsBlock(d) <= cursor
      invariant Located(d.dirs[k..], cursor) && TreeEnd(d) == cursor + ForestBlocks(d.dirs[k..])
      invariant ForestFits(d.dirs[k..], d) && done + ForestBytes(d.dirs[k..], d, clock) == ForestBytes(d.dirs, d, clock)
    {
      var child := d.dirs[k];
      DirReady(d, parent, k);
      RecordStep(before, w.data, d, parent, clock, 2 + k, done, cursor);
      WriteDirEntry(w, child, 0, clock);
      LocatedStep(d.dirs, k, cursor);
      ForestBytesStep(d.dirs, k, d, clock);
      ghost var data, next := w.data, TreeEnd(child);
      ProgressBlank(before, data, d, parent, clock, 3 + k, done, cursor, next);
      WriteExtent(w, child, Some(d), clock);
      ghost var bytes := TreeBytes(child, Some(d), clock);
      ChildStep(before, data, w.data, d, parent, clock, 3 + k, done, cursor, bytes, next);
      ghost var rest := ForestBytes(d.dirs[k + 1..], d, clock);
      assert done + (bytes + rest) == done + bytes + rest;
      done, cursor := done + bytes, next;
    }
    NoForest(d.dirs[|d.dirs|..], d, clock);
    assert done + [] == done;
    WriteFileRecords(w, d, parent, clock, before, done, cursor);
    FinishExtent(w, d, parent, clock, before);
    w.SeekTo(oldPos);
  }

  /** The loop over the files. */
  method WriteFileRecords(w: Writer, d: Dir, parent: Option<Dir>, clock: Clock,
                          ghost before: seq<byte>, ghost done: seq<byte>, ghost cursor: nat)
    requires w.Valid() && ExtentFits(d, parent) && TreeEnd(d) * 2048 < 0x8000_0000
    requires w.pos == RecordPos(d, parent, 2 + |d.dirs|) && EndsAt(w.data, w.pos)
    requires Progress(before, w.data, d, parent, clock, 2 + |d.dirs|, done, cursor)
    modifies w
    ensures w.Valid() && w.pos == RecordPos(d, parent, 2 + |d.dirs| + |d.files|) && |w.data| >= |old(w.data)|
    ensures EndsAt(w.data, w.pos)
    ensures Progress(before, w.data, d, parent, clock, 2 + |d.dirs| + |d.files|, done, cursor)
  {
    hide Holds, Blank, SameOutside, Overwrite, PlacedBytes, ExtentBlocks, ForestBlocks, UsedSectors, FileEntrySize,
         RecordSize, FileRecord, Progress, ExtentRecords, RecordPos, Place, Gap, AlignUp, ExtentFits;
    for k := 0 to |d.files|
      invariant w.Valid() && w.pos == RecordPos(d, parent, 2 + |d.dirs| + k) && |w.data| >= |old(w.data)|
      invariant EndsAt(w.data, w.pos)
      invariant Progress(before, w.data, d, parent, clock, 2 + |d.dirs| + k, done, cursor)
    {
      FileReady(d, parent, k);
      RecordStep(before, w.data, d, parent, clock, 2 + |d.dirs| + k, done, cursor);
      WriteFileEntry(w, d.files[k], clock);
    }
  }

  lemma NoForest(ds: seq<Dir>, parent: Dir, clock: Clock)
    requires ds == []
    ensures ForestBlocks(ds) == 0 && ForestFits(ds, parent) && ForestBytes(ds, parent, clock) == []
  {
  }

  lemma ProgressBlank(before: seq<byte>, data: seq<byte>, d: Dir, parent: Option<Dir>, clock: Clock,
                      k: nat, done: seq<byte>, cursor: nat, next: nat)
    requires k <= 2 + |d.dirs| + |d.files| && next <= TreeEnd(d)
    requires Progress(before, data, d, parent, clock, k, done, cursor)
    ensures Blank(data, cursor * 2048, next * 2048)
  {
    hide ExtentBlocks, ForestBlocks, Holds, SameOutside, RecordPos;
  }

  /** The padding behind the records is written over zeros. */
  lemma PaddingStep(before: seq<byte>, data: seq<byte>, d: Dir, parent: Option<Dir>, clock: Clock, done: seq<byte>,
                    cursor: nat)
    requires ExtentFits(d, parent)
    requires Progress(before, data, d, parent, clock, 2 + |d.dirs| + |d.files|, done, cursor)
    ensures var all := 2 + |d.dirs| + |d.files|;
      var pos := RecordPos(d, parent, all);
      && Progress(before, Overwrite(data, pos, Padding(pos)), d, parent, clock, all, done, cursor)
      && Blank(Overwrite(data, pos, Padding(pos)), (d.lba + ExtentBlocks(d)) * 2048, KidsBlock(d) * 2048)
  {
    hide Holds, Blank, SameOutside, Overwrite, ExtentRecords, ExtentBlocks, ForestBlocks, PackBytes, PackTo, ChildSizes;
    var all := 2 + |d.dirs| + |d.files|;
    var base, pos, kids, end := d.lba * 2048, RecordPos(d, parent, all), KidsBlock(d) * 2048, TreeEnd(d) * 2048;
    var data' := Overwrite(data, pos, Padding(pos));
    ExtentPacking(d, parent, |d.dirs| + |d.files|);
    AlignUpShift(d.lba, RecordsEnd(d, parent.None?));
    ZerosOverBlank(data, pos, kids, pos, AlignUp(pos) - pos);
    HoldsKept(data, data', 0, 0, base, PackBytes(ExtentRecords(d, parent), all, base, clock));
    BlankKept(data, data', 0, 0, pos, kids);
    HoldsKept(data, data', 0, 0, kids, done);
    BlankKept(data, data', 0, 0, cursor * 2048, end);
    SameEverywhere(before, data, data', base, end);
    BlankPart(data', pos, kids, (d.lba + ExtentBlocks(d)) * 2048, kids);
  }

  lemma AlignUpShift(block: nat, pos: nat)
    ensures AlignUp(block * 2048 + pos) == block * 2048 + AlignUp(pos)
  {
    assert block * 2048 + pos == 2048 * (block + pos / 2048) + pos % 2048;
    assert (block * 2048 + pos) % 2048 == pos % 2048;
  }

  lemma SameEverywhere(a: seq<byte>, b: seq<byte>, c: seq<byte>, lo: nat, hi: nat)
    requires SameOutside(a, b, lo, hi) && SameOutside(b, c, 0, 0)
    ensures SameOutside(a, c, lo, hi)
  {
  }

  /** The end of `write_extent`: padding and continuation area. */
  method FinishExtent(w: Writer, d: Dir, parent: Option<Dir>, clock: Clock, ghost before: seq<byte>)
    requires w.Valid() && TreeFits(d, parent) && TreeEnd(d) * 2048 < 0x8000_0000
    requires w.pos == RecordPos(d, parent, 2 + |d.dirs| + |d.files|) && EndsAt(w.data, w.pos)
    requires Progress(before, w.data, d, parent, clock, 2 + |d.dirs| + |d.files|, ForestBytes(d.dirs, d, clock),
                      TreeEnd(d))
    modifies w
    ensures w.Valid() && WholeSectors(w.data)
    ensures SameOutside(before, w.data, d.lba * 2048, TreeEnd(d) * 2048)
    ensures Holds(w.data, d.lba * 2048, TreeBytes(d, parent, clock))
    ensures |w.data| >= |old(w.data)|
  {
    hide Holds, Blank, SameOutside, Overwrite, ExtentBlocks, ForestBlocks, UsedSectors, ForestBytes, TreeBytes,
         AreaBytes, ExtentRecords, PackBytes, RecordPos, Progress, Padding;
    PaddingStep(before, w.data, d, parent, clock, ForestBytes(d.dirs, d, clock), TreeEnd(d));
    PaddingEnds(w.data, w.pos);
    PadSector(w);
    ghost var data := w.data;
    WriteContinuationArea(w, d);
    ProgressEnds(before, data, d, parent, clock, w.data);
  }
}
