/** The whole run of `create_iso` (mod.rs:303-380): lay the tree out, then write path tables, extents and files.
    System area, volume descriptors and the sector behind them are given as bytes. */
module Iso {
  import opened Bytes
  import opened Image
  import opened Packing
  import opened DirectoryTree
  import opened Records
  import opened Layout
  import opened PathTable
  import opened Reading
  import opened Extents
  import opened Files
  import opened Merge
  import opened BootCatalog
  import opened DirectoryObjects
  import opened Reader

  // ---------------------------------------------------------------- trees that can be written

  /** Record lengths fit a byte, sizes four, and a file's content has the recorded size. */
  ghost predicate SuitableFiles(fs: seq<File>) {
    forall i :: 0 <= i < |fs| ==> FileEntrySize(fs[i]) <= 255 && |fs[i].data| == fs[i].size < 0x8000_0000
  }

  /** The same for directories, and their records stay within the sectors reserved for them. */
  ghost predicate Suitable(ds: seq<Dir>)
    decreases ds
  {
    ds == [] ||
    (var d := ds[0];
     && d.continuation.None? && UsedSectors(d, false) <= ExtentBlocks(d)
     && DirEntrySize(d, 0) <= 255 && SuitableFiles(d.files)
     && Suitable(d.dirs) && Suitable(ds[1..]))
  }

  ghost predicate SuitableRoot(root: Dir) {
    && UsedSectors(root, true) <= ExtentBlocks(root)
    && SuitableFiles(root.files) && Suitable(root.dirs)
  }

  lemma SuitableStep(ds: seq<Dir>)
    requires ds != []
    ensures var d := ds[0];
      Suitable(ds) <==>
      && d.continuation.None? && UsedSectors(d, false) <= ExtentBlocks(d)
      && DirEntrySize(d, 0) <= 255 && SuitableFiles(d.files)
      && Suitable(d.dirs) && Suitable(ds[1..])
  {
    hide ExtentBlocks, UsedSectors, DirEntrySize, SuitableFiles;
  }

  lemma {:induction false} SuitableIsPlain(ds: seq<Dir>)
    requires Suitable(ds)
    ensures Plain(ds)
    decreases ds
  {
    hide ExtentBlocks, UsedSectors, DirEntrySize, SuitableFiles;
    if ds != [] {
      SuitableIsPlain(ds[0].dirs);
      SuitableIsPlain(ds[1..]);
    }
  }

  lemma SameUse(d: Dir, e: Dir, isRoot: bool)
    requires |d.dirs| == |e.dirs| && forall i :: 0 <= i < |d.dirs| ==> d.dirs[i].name == e.dirs[i].name
    requires |d.files| == |e.files| && forall i :: 0 <= i < |d.files| ==> d.files[i].name == e.files[i].name
    ensures UsedSectors(d, isRoot) == UsedSectors(e, isRoot) && ExtentBlocks(d) == ExtentBlocks(e)
  {
    hide ExtentBlocks, ChildSizes;
    SameChildSizes(d, e);
  }

  lemma {:induction false} AssignKeepsSuitable(ds: seq<Dir>, first: nat, parent: nat, lastIndex: nat, lastLba: nat)
    requires Suitable(ds)
    ensures Suitable(AssignForest(ds, first, parent, lastIndex, lastLba).dirs)
    decreases ds
  {
    hide ExtentBlocks, UsedSectors, DirEntrySize, SuitableFiles, Suitable, AssignForest, Plain;
    if ds != [] {
      SuitableStep(ds);
      var d := ds[0];
      var r := AssignForest(ds, first, parent, lastIndex, lastLba);
      var kids := AssignForest(d.dirs, lastIndex + 1, first, lastIndex + |d.dirs|, lastLba + ExtentBlocks(d));
      SuitableIsPlain(d.dirs);
      AssignForestStep(ds, first, parent, lastIndex, lastLba);
      AssignForestShape(d.dirs, lastIndex + 1, first, lastIndex + |d.dirs|, lastLba + ExtentBlocks(d));
      AssignKeepsSuitable(d.dirs, lastIndex + 1, first, lastIndex + |d.dirs|, lastLba + ExtentBlocks(d));
      AssignKeepsSuitable(ds[1..], first + 1, parent, kids.lastIndex, kids.lastLba);
      SameUse(d, r.dirs[0], false);
      SameDirSize(d, r.dirs[0]);
      SuitableStep(r.dirs);
    } else {
      NoneSuitable(ds, AssignForest(ds, first, parent, lastIndex, lastLba).dirs);
    }
  }

  lemma NoneSuitable(ds: seq<Dir>, es: seq<Dir>)
    requires ds == [] && |es| == |ds|
    ensures Suitable(es)
  {
  }

  lemma SameDirSize(d: Dir, e: Dir)
    requires d.name == e.name
    ensures DirEntrySize(d, 0) == DirEntrySize(e, 0)
  {
  }

  lemma SuitableFilesMoved(fs: seq<File>, gs: seq<File>)
    requires |fs| == |gs| && forall i :: 0 <= i < |fs| ==> gs[i] == fs[i].(lba := gs[i].lba)
    requires SuitableFiles(fs)
    ensures SuitableFiles(gs)
  {
  }

  lemma {:induction false} ReserveKeepsSuitable(ds: seq<Dir>, lba: nat)
    requires Suitable(ds)
    ensures Suitable(ReserveForest(ds, lba).0)
    decreases ds
  {
    hide ExtentBlocks, UsedSectors, DirEntrySize, SuitableFiles, Suitable, ReserveForest, ReserveFiles, FilesBlocks,
         FilesLaid;
    if ds != [] {
      SuitableStep(ds);
      var d := ds[0];
      var r := ReserveForest(ds, lba);
      var own := ReserveFiles(d.files, lba);
      var kids := ReserveForest(d.dirs, own.1);
      ReserveForestStep(ds, lba);
      ReserveFilesLays(d.files, lba);
      ReserveForestShape(d.dirs, own.1);
      ReserveKeepsSuitable(d.dirs, own.1);
      ReserveKeepsSuitable(ds[1..], kids.1);
      SameUse(d, r.0[0], false);
      SameDirSize(d, r.0[0]);
      SuitableFilesMoved(d.files, own.0);
      SuitableStep(r.0);
    } else {
      NoneSuitable(ds, ReserveForest(ds, lba).0);
    }
  }

  /** The extents of a suitable forest fit their blocks, and so do the files. */
  lemma {:induction false} SuitableFits(ds: seq<Dir>, parent: Dir)
    requires Suitable(ds)
    ensures ForestFits(ds, parent) && ForestFilesFit(ds)
    decreases ds
  {
    hide ExtentBlocks, UsedSectors, DirEntrySize, SuitableFiles, FilesFit;
    if ds != [] {
      SuitableFilesFit(ds[0].files);
      SuitableFits(ds[0].dirs, ds[0]);
      SuitableFits(ds[1..], parent);
    }
  }

  lemma {:induction false} SuitableFilesFit(fs: seq<File>)
    requires SuitableFiles(fs)
    ensures FilesFit(fs)
    decreases |fs|
  {
    hide FileEntrySize, FileBlocks;
    if fs != [] {
      ReservationHoldsContent(fs[0]);
      assert forall i :: 0 <= i < |fs| - 1 ==> fs[1..][i] == fs[i + 1];
      SuitableFilesFit(fs[1..]);
    }
  }

  /** Laid out below 2^32 blocks, all their numbers can be recorded. */
  lemma {:induction false} SuitableIsRecordable(ds: seq<Dir>, lba: nat)
    requires Suitable(ds) && ForestFilesLaid(ds, lba) && lba + ForestFileBlocks(ds) < 0x1_0000_0000
    ensures ForestRecordable(ds)
    decreases ds
  {
    hide ExtentBlocks, UsedSectors, DirEntrySize, SuitableFiles, FilesBlocks, FilesLaid, Recordable;
    if ds != [] {
      var d := ds[0];
      FilesAreRecordable(d.files, lba);
      SuitableIsRecordable(d.dirs, lba + FilesBlocks(d.files));
      SuitableIsRecordable(ds[1..], lba + FilesBlocks(d.files) + ForestFileBlocks(d.dirs));
    }
  }

  lemma {:induction false} FilesAreRecordable(fs: seq<File>, lba: nat)
    requires SuitableFiles(fs) && FilesLaid(fs, lba) && lba + FilesBlocks(fs) < 0x1_0000_0000
    ensures Recordable(fs)
    decreases |fs|
  {
    hide FileEntrySize, FileBlocks;
    if fs != [] {
      assert forall i :: 0 <= i < |fs| - 1 ==> fs[1..][i] == fs[i + 1];
      FilesAreRecordable(fs[1..], lba + FileBlocks(fs[0]));
      assert forall i :: 0 < i < |fs| ==> fs[i] == fs[1..][i - 1];
    }
  }

  // ---------------------------------------------------------------- which trees these are

  /** Names of at most 158 bytes, and contents of the recorded size. */
  ghost predicate ShortFiles(fs: seq<File>) {
    forall i :: 0 <= i < |fs| ==> |fs[i].name| <= 158 && |fs[i].data| == fs[i].size < 0x8000_0000
  }

  /** The same for directories, and no record is reached with a full sector by the estimator. */
  ghost predicate NoExactFills(ds: seq<Dir>)
    decreases ds
  {
    ds == [] ||
    (var d := ds[0];
     && d.continuation.None? && Undercount(d) == 0 && |d.name| <= 158 && ShortFiles(d.files)
     && NoExactFills(d.dirs) && NoExactFills(ds[1..]))
  }

  lemma ShortNamesFit(d: Dir, f: File)
    ensures |d.name| <= 158 ==> DirEntrySize(d, 0) <= 255
    ensures |f.name| <= 158 ==> FileEntrySize(f) <= 255
  {
  }

  lemma ShortFilesSuit(fs: seq<File>)
    requires ShortFiles(fs)
    ensures SuitableFiles(fs)
  {
    hide FileEntrySize;
    forall i | 0 <= i < |fs|
      ensures FileEntrySize(fs[i]) <= 255
    {
      ShortNamesFit(EmptyDir(fs[i].name), fs[i]);
    }
  }

  /** Without exact fills, and with short names, every forest is suitable. */
  lemma {:induction false} NoExactFillsSuits(ds: seq<Dir>)
    requires NoExactFills(ds)
    ensures Suitable(ds)
    decreases ds
  {
    hide Undercount, UsedSectors, ExtentBlocks, DirEntrySize, SuitableFiles, ShortFiles;
    if ds != [] {
      ReservationSuffices(ds[0]);
      ShortNamesFit(ds[0], EMPTY_CATALOG);
      ShortFilesSuit(ds[0].files);
      NoExactFillsSuits(ds[0].dirs);
      NoExactFillsSuits(ds[1..]);
    }
  }

  /** With its descendants short and free of exact fills, a root is suitable exactly when it has none itself. */
  lemma RootSuitsExactly(root: Dir)
    requires NoExactFills(root.dirs) && ShortFiles(root.files)
    ensures SuitableRoot(root) <==> Undercount(root) == 0
  {
    hide Undercount, UsedSectors, ExtentBlocks, SuitableFiles, ShortFiles, Suitable, NoExactFills;
    ReservationSuffices(root);
    ShortFilesSuit(root.files);
    NoExactFillsSuits(root.dirs);
  }

  // ---------------------------------------------------------------- the layout of the whole image

  function Ascii(s: string): (bytes: seq<byte>)
    ensures |bytes| == |s|
  {
    seq(|s|, i requires 0 <= i < |s| => U8(s[i] as int))
  }

  /** The 'ER' field of Rock Ridge 1.2 (mod.rs:326-339): its length byte, 0xB6, is its length. */
  function RockRidgeArea(): (bytes: seq<byte>)
    ensures |bytes| == 0xB6
  {
    Ascii("ER") + [0xB6, 0x1, 0x9, 0x48, 0x5D, 0x1] + Ascii("IEEE_1282")
    + Ascii("THE IEEE 1282 PROTOCOL PROVIDES SUPPORT FOR POSIX FILE SYSTEM SEMANTICS.")
    + Ascii("PLEASE CONTACT THE IEEE STANDARDS DEPARTMENT, PISCATAWAY, NJ, USA FOR THE 1282 SPECIFICATION.")
  }

  /** The area taken apart as a field of its own (section 5.5 of IEEE P1281): its length, and the lengths of identifier,
      descriptor and source, add up; extension version 1; the identifier is the first text. */
  lemma AreaIsExtension()
    ensures var area := RockRidgeArea();
      && area[..2] == Ascii("ER") && area[2] as int == |area| == 8 + area[4] as int + area[5] as int + area[6] as int
      && area[3] == area[7] == 1 && area[8..8 + area[4] as int] == Ascii("IEEE_1282")
  {
    var texts := Ascii("THE IEEE 1282 PROTOCOL PROVIDES SUPPORT FOR POSIX FILE SYSTEM SEMANTICS.")
    + Ascii("PLEASE CONTACT THE IEEE STANDARDS DEPARTMENT, PISCATAWAY, NJ, USA FOR THE 1282 SPECIFICATION.");
    var head := Ascii("ER") + [0xB6, 0x1, 0x9, 0x48, 0x5D, 0x1];
    hide Ascii;
    assert RockRidgeArea() == head + Ascii("IEEE_1282") + texts;
  }

  /** Numbers and blocks for the tree, the path tables starting at block `start`; and the end of the image. */
  function LayOut(root: Dir, start: nat): (Dir, nat) {
    var numbered := AssignRoot(root.(continuation := Some(RockRidgeArea())), start + 4);
    ReserveNode(numbered.0, numbered.1)
  }

  /** The finished tree: with the boot catalog filled when there is one. */
  function Finish(root: Dir, boot: Option<BootOptions>): Option<Dir> {
    if boot.None? then Some(root) else FillCatalog(root, boot.value)
  }

  /** What is known of a suitable tree after layout and catalog. */
  ghost predicate Ready(root: Dir, start: nat) {
    && RootLaid(root, start + 4) && RootFilesLaid(root) && SuitableRoot(root)
    && root.continuation.Some? && |root.continuation.value| <= 2048
  }

  lemma LayOutIsReady(root: Dir, start: nat)
    requires SuitableRoot(root)
    ensures var (t, end) := LayOut(root, start); Ready(t, start) && end == ImageEnd(t)
  {
    hide ExtentBlocks, UsedSectors, SuitableFiles, Suitable, ReserveForest, ReserveFiles, FilesBlocks, AssignForest,
         Plain, Laid, FilesLaid, ForestFilesLaid, ForestBlocks, RockRidgeArea, ForestFileBlocks;
    var r := root.(continuation := Some(RockRidgeArea()));
    SuitableIsPlain(root.dirs);
    PassesLayRoot(r, start + 4);
    var n := AssignRoot(r, start + 4);
    var (t, end) := LayOut(root, start);
    var lba := start + 4 + 1 + ExtentBlocks(root);
    SameUse(root, r, true);
    AssignForestShape(root.dirs, 2, 1, 1 + |root.dirs|, lba);
    AssignKeepsSuitable(root.dirs, 2, 1, 1 + |root.dirs|, lba);
    SameUse(r, n.0, true);
    var own := ReserveFiles(root.files, n.1);
    ReserveFilesLays(root.files, n.1);
    ReserveForestShape(n.0.dirs, own.1);
    ReserveKeepsSuitable(n.0.dirs, own.1);
    SuitableFilesMoved(root.files, own.0);
    SameUse(n.0, t, true);
  }

  // ---------------------------------------------------------------- the bytes of the whole image

  /** The two blocks of a path table. */
  function TableArea(root: Dir, order: Order): (bytes: seq<byte>)
    requires |WholeTable(root, order)| <= 4096
    ensures |bytes| == 4096
  {
    WholeTable(root, order) + Zeros(4096 - |WholeTable(root, order)|)
  }

  /** Everything that has to hold for the image of a tree to be written. */
  ghost predicate Imageable(root: Dir, start: nat) {
    && Ready(root, start)
    && |WholeTable(root, LittleEndian)| <= 4096 && |WholeTable(root, BigEndian)| <= 4096
    && TreeFits(root, None) && TreeFilesFit(root)
    && ImageEnd(root) * 2048 < 0x8000_0000
  }

  /** Descriptors, both path tables, the extents, the files: one behind the other. */
  function WholeImage(prefix: seq<byte>, root: Dir, start: nat, clock: Clock): (bytes: seq<byte>)
    requires Imageable(root, start)
  {
    prefix + TableArea(root, LittleEndian) + TableArea(root, BigEndian) + TreeBytes(root, None, clock)
    + TreeFileBytes(root)
  }

  lemma WholeImageParts(prefix: seq<byte>, root: Dir, start: nat, clock: Clock)
    requires Imageable(root, start) && |prefix| == start * 2048
    ensures
      var withTables := prefix + TableArea(root, LittleEndian) + TableArea(root, BigEndian);
      WholeImage(prefix, root, start, clock) == withTables + TreeBytes(root, None, clock) + TreeFileBytes(root)
  {
    hide TableArea, TreeBytes, TreeFileBytes, Imageable;
  }

  /** A suitable tree that is laid out fits its image. */
  lemma ReadyIsImageable(root: Dir, start: nat)
    requires Ready(root, start) && PathTableSize(root) <= 4096 && ImageEnd(root) * 2048 < 0x8000_0000
    ensures Imageable(root, start) && OnlyRootIsFirst(root)
    ensures Located(root.dirs, KidsBlock(root)) && TreeEnd(root) == ExtentsEnd(root)
    ensures TreeFilesLaid(root, ExtentsEnd(root)) && ImageEnd(root) == ExtentsEnd(root) + TreeFileBlocks(root)
  {
    hide ExtentBlocks, UsedSectors, SuitableFiles, Suitable, FilesBlocks, Laid, FilesLaid, ForestFilesLaid,
         ForestBlocks, ForestFileBlocks, WholeTable, Others, PathTableSize, FilesFit, ForestFilesFit, ForestFits;
    var kids := start + 4 + ExtentBlocks(root) + 1;
    RootIsFirst(root, start + 4);
    PathTableSizeIsExact(root, LittleEndian);
    PathTableSizeIsExact(root, BigEndian);
    SuitableFits(root.dirs, root);
    SuitableFilesFit(root.files);
    LaidIsLocated(root.dirs, 2, 1, 1 + |root.dirs|, kids);
  }

  ghost predicate OnlyRootIsFirst(root: Dir) {
    root.index == 1 && forall d :: d in Others(root) ==> d.index != 1
  }

  lemma RootIsFirst(root: Dir, lba: nat)
    requires RootLaid(root, lba)
    ensures OnlyRootIsFirst(root)
  {
    hide Laid, Others;
    PathTableOrder(root, lba);
    forall d | d in Others(root)
      ensures d.index != 1
    {
      var k :| 0 <= k < |Others(root)| && Others(root)[k] == d;
      assert AllDirs(root)[k + 1] == d;
    }
  }

  // ---------------------------------------------------------------- writing it

  /** A path table in its two blocks. */
  method WriteTable(w: Writer, root: Dir, order: Order, block: nat, ghost done: seq<byte>, ghost end: nat)
    requires w.Valid() && OnlyRootIsFirst(root) && |WholeTable(root, order)| <= 4096
    requires Filled([], w.data, 0, done, block, end) && block + 2 <= end && end * 2048 < 0x8000_0000
    modifies w
    ensures w.Valid() && w.pos == old(w.pos)
    ensures Filled([], w.data, 0, done + TableArea(root, order), block + 2, end) && |w.data| >= |old(w.data)|
    ensures WholeSectors(old(w.data)) ==> WholeSectors(w.data)
  {
    hide WholeTable, Overwrite, Others, Padding, TableArea, Filled;
    ghost var data := w.data;
    WritePathTable(w, root, order, block);
    FilledBlank([], data, 0, done, block, end, block + 2);
    TableWritten(data, root, order, block);
    FilledStep([], data, w.data, 0, done, block, end, TableArea(root, order), block + 2);
  }

  lemma TableWritten(data: seq<byte>, root: Dir, order: Order, block: nat)
    requires |WholeTable(root, order)| <= 4096 && Blank(data, block * 2048, (block + 2) * 2048)
    ensures
      var table := WholeTable(root, order);
      var data' := Overwrite(data, block * 2048, table + Padding(block * 2048 + |table|));
      && SameOutside(data, data', block * 2048, (block + 2) * 2048)
      && Holds(data', block * 2048, TableArea(root, order))
      && |data'| >= |data| && (WholeSectors(data) ==> WholeSectors(data'))
  {
    hide WholeTable, Overwrite;
    var table := WholeTable(root, order);
    assert AlignUp(block * 2048 + |table|) <= (block + 2) * 2048;
  }

  lemma PrefixFilled(data: seq<byte>, prefix: seq<byte>, start: nat, end: nat)
    requires data == Overwrite([], 0, prefix) && |prefix| == start * 2048 && start <= end
    ensures Filled([], data, 0, prefix, start, end) && |data| >= |prefix| && WholeSectors(data)
  {
  }

  lemma ZerosAtEnd(data: seq<byte>, n: nat, more: nat)
    ensures SameOutside(data, data + Zeros(n), 0, 0)
    ensures Overwrite(data + Zeros(n), |data| + n, Zeros(more)) == data + Zeros(n + more)
  {
    assert Zeros(n) + Zeros(more) == Zeros(n + more);
    assert more == 0 ==> Zeros(n + more) == Zeros(n);
    assert data + Zeros(n) + Zeros(more) == data + (Zeros(n) + Zeros(more));
  }

  /** The 128 empty sectors behind everything (mod.rs:373-377). */
  method AppendTrailer(w: Writer)
    requires w.Valid()
    modifies w
    ensures w.Valid() && w.data == old(w.data) + Zeros(128 * 2048) && w.pos == |old(w.data)|
  {
    hide Overwrite;
    var end := |w.data|;
    w.SeekTo(end);
    for i := 0 to 128
      invariant w.Valid() && w.data == old(w.data) + Zeros(i * 2048) && w.pos == |w.data|
    {
      w.Mark();
      w.WriteAll(Zeros(2048));
      assert w.run == Zeros(2048);
      ZerosAtEnd(old(w.data), i * 2048, 2048);
    }
    w.SeekTo(end);
  }

  lemma FilledAll(data: seq<byte>, bytes: seq<byte>, end: nat)
    requires Filled([], data, 0, bytes, end, end)
    ensures Holds(data, 0, bytes)
  {
  }

  lemma ImageBlocks(root: Dir, start: nat)
    requires Imageable(root, start) && TreeEnd(root) == ExtentsEnd(root)
    requires ImageEnd(root) == ExtentsEnd(root) + TreeFileBlocks(root)
    ensures root.lba == start + 4 <= TreeEnd(root) <= ImageEnd(root) && ImageEnd(root) * 2048 < 0x8000_0000
    ensures TreeEnd(root) + TreeFileBlocks(root) == ImageEnd(root)
    ensures |WholeTable(root, LittleEndian)| <= 4096 && |WholeTable(root, BigEndian)| <= 4096
    ensures TreeFits(root, None) && TreeFilesFit(root)
  {
    hide ExtentBlocks, ForestBlocks, TreeFileBlocks, WholeTable, TreeFits, TreeFilesFit;
  }

  /** The writing half of `create_iso`, from the descriptors on. */
  method WriteImage(w: Writer, prefix: seq<byte>, root: Dir, start: nat, clock: Clock)
    requires w.Valid() && w.data == [] && w.pos == 0
    requires Imageable(root, start) && OnlyRootIsFirst(root) && |prefix| == start * 2048
    requires Located(root.dirs, KidsBlock(root)) && TreeEnd(root) == ExtentsEnd(root)
    requires TreeFilesLaid(root, ExtentsEnd(root)) && ImageEnd(root) == ExtentsEnd(root) + TreeFileBlocks(root)
    modifies w
    ensures w.Valid() && Holds(w.data, 0, WholeImage(prefix, root, start, clock))
    ensures |w.data| >= |prefix| && |w.data| >= TreeReach(root) && WholeSectors(w.data)
  {
    hide WholeTable, Overwrite, Others, Padding, TableArea, Filled, TreeFits, TreeFilesFit, Holds, Blank, TreeBytes,
         TreeFileBytes, TreeFilesLaid, TreeEnd, TreeFileBlocks, Located, TreeReach, ForestBlocks, ExtentBlocks,
         OnlyRootIsFirst, SameOutside, Imageable, ImageEnd, ExtentsEnd, KidsBlock;
    ghost var end := ImageEnd(root);
    ImageBlocks(root, start);
    w.Mark();
    w.WriteAll(prefix);
    assert w.run == prefix;
    PrefixFilled(w.data, prefix, start, end);
    ghost var done := prefix;
    WriteTable(w, root, LittleEndian, start, done, end);
    done := done + TableArea(root, LittleEndian);
    WriteTable(w, root, BigEndian, start + 2, done, end);
    done := done + TableArea(root, BigEndian);
    ghost var data := w.data;
    FilledBlank([], data, 0, done, start + 4, end, TreeEnd(root));
    WriteExtent(w, root, None, clock);
    FilledStep([], data, w.data, 0, done, start + 4, end, TreeBytes(root, None, clock), TreeEnd(root));
    done := done + TreeBytes(root, None, clock);
    data := w.data;
    FilledBlank([], data, 0, done, TreeEnd(root), end, end);
    WriteFiles(w, root, TreeEnd(root));
    FilledStep([], data, w.data, 0, done, TreeEnd(root), end, TreeFileBytes(root), end);
    WholeImageParts(prefix, root, start, clock);
    FilledAll(w.data, WholeImage(prefix, root, start, clock), end);
    data := w.data;
    AppendTrailer(w);
    ZerosAtEnd(data, 128 * 2048, 0);
    HoldsKept(data, w.data, 0, 0, 0, WholeImage(prefix, root, start, clock));
  }

  // ---------------------------------------------------------------- reading it back

  /** Everything a reader finds in the image of `root`: the descriptors as given; both path tables, the same list
      in both byte orders, in the order of the numbers; from the root's block and length the whole hierarchy;
      and at the block recorded for any file its content. */
  ghost predicate ReadsBack(data: seq<byte>, prefix: seq<byte>, root: Dir, start: nat) {
    && prefix <= data
    && InOrder(AllDirs(root))
    && (var entries := Some([EntryFor(root, true)] + EntriesFor(Others(root)));
        && ReadTable(data, start * 2048, start * 2048 + PathTableSize(root), LittleEndian) == entries
        && ReadTable(data, (start + 2) * 2048, (start + 2) * 2048 + PathTableSize(root), BigEndian) == entries)
    && root.lba == start + 4
    && (forall depth: nat :: Depth(root.dirs) <= depth ==> HierarchyReadsBack(data, root, depth))
    && (forall f :: f in root.files || FileIn(f, root.dirs) ==> ContentReadsBack(data, f))
  }

  ghost predicate HierarchyReadsBack(data: seq<byte>, root: Dir, depth: nat) {
    && root.continuation.Some?
    && ReadRoot(data, root.lba, ExtentBlocks(root) * 2048, depth)
      == Some(Root(DirAttributes(root), root.continuation.value, Listing(root)))
  }

  /** The recorded length of bytes at the recorded block is the content, and inside the file. */
  ghost predicate ContentReadsBack(data: seq<byte>, f: File) {
    && |f.data| == f.size
    && (f.data == []
        || (f.lba * 2048 + f.size <= |data| && data[f.lba * 2048..f.lba * 2048 + f.size] == f.data))
  }

  lemma ImageParts(data: seq<byte>, prefix: seq<byte>, root: Dir, start: nat, clock: Clock)
    requires Imageable(root, start) && TreeEnd(root) == ExtentsEnd(root) && |prefix| == start * 2048
    requires ImageEnd(root) == ExtentsEnd(root) + TreeFileBlocks(root)
    requires Holds(data, 0, WholeImage(prefix, root, start, clock))
    ensures Holds(data, 0, prefix)
    ensures Holds(data, start * 2048, WholeTable(root, LittleEndian))
    ensures Holds(data, (start + 2) * 2048, WholeTable(root, BigEndian))
    ensures Holds(data, root.lba * 2048, TreeBytes(root, None, clock))
    ensures Holds(data, TreeEnd(root) * 2048, TreeFileBytes(root))
  {
    hide WholeTable, Holds, TreeBytes, TreeFileBytes, TreeEnd, ExtentsEnd, ImageEnd, TreeFits, TreeFilesFit,
         TreeFileBlocks, Imageable, WholeImage;
    ImageBlocks(root, start);
    WholeImageParts(prefix, root, start, clock);
    var le, be := TableArea(root, LittleEndian), TableArea(root, BigEndian);
    HoldsBoth(data, 0, prefix + le + be + TreeBytes(root, None, clock), TreeFileBytes(root));
    HoldsBoth(data, 0, prefix + le + be, TreeBytes(root, None, clock));
    HoldsBoth(data, 0, prefix + le, be);
    HoldsBoth(data, 0, prefix, le);
    HoldsBoth(data, start * 2048, WholeTable(root, LittleEndian), Zeros(4096 - |WholeTable(root, LittleEndian)|));
    HoldsBoth(data, (start + 2) * 2048, WholeTable(root, BigEndian), Zeros(4096 - |WholeTable(root, BigEndian)|));
  }

  /** Whole-image integrity: nothing that is written later destroys what was written before. */
  lemma ImageReadsBack(data: seq<byte>, prefix: seq<byte>, root: Dir, start: nat, clock: Clock)
    requires Ready(root, start) && PathTableSize(root) <= 4096 && ImageEnd(root) * 2048 < 0x8000_0000
    requires Imageable(root, start) && |prefix| == start * 2048
    requires Holds(data, 0, WholeImage(prefix, root, start, clock)) && |data| >= |prefix| && |data| >= TreeReach(root)
    ensures ReadsBack(data, prefix, root, start)
  {
    hide WholeTable, Holds, TreeBytes, TreeFileBytes, TreeEnd, ExtentsEnd, ImageEnd, TreeFits, TreeFilesFit,
         TreeFileBlocks, Imageable, WholeImage, ExtentBlocks, Others, ReadTable, ReadRoot, DirAttributes, PathTableSize,
         EntryFor, EntriesFor, RootLaid, RootFilesLaid, SuitableFiles, Suitable, UsedSectors, Located, TreeFilesLaid,
         TreeReach, ForestRecordable, Recordable, Depth, Listing, InOrder, FileIn;
    ReadyIsImageable(root, start);
    ImageBlocks(root, start);
    ImageParts(data, prefix, root, start, clock);
    HoldsSlice(data, 0, prefix);
    PathTableOrder(root, start + 4);
    PathTableRoundTrip(data, start, root, LittleEndian);
    PathTableRoundTrip(data, start + 2, root, BigEndian);
    ReadyIsRecordable(root, start);
    forall depth: nat | Depth(root.dirs) <= depth
      ensures HierarchyReadsBack(data, root, depth)
    {
      DirectoryRoundTrip(data, root, clock, depth);
    }
    forall f | f in root.files || FileIn(f, root.dirs)
      ensures ContentReadsBack(data, f)
    {
      TreeFileHeld(data, root, TreeEnd(root), f);
      SuitableContent(root, f);
    }
  }

  lemma ReadyIsRecordable(root: Dir, start: nat)
    requires Ready(root, start) && ImageEnd(root) * 2048 < 0x8000_0000
    ensures ForestRecordable(root.dirs) && Recordable(root.files)
  {
    hide ExtentBlocks, UsedSectors, SuitableFiles, Suitable, FilesBlocks, Laid, FilesLaid, ForestFilesLaid,
         ForestBlocks, ForestFileBlocks, Recordable, ForestRecordable;
    SuitableIsRecordable(root.dirs, ExtentsEnd(root) + FilesBlocks(root.files));
    FilesAreRecordable(root.files, ExtentsEnd(root));
  }

  lemma SuitableContent(root: Dir, f: File)
    requires SuitableRoot(root) && (f in root.files || FileIn(f, root.dirs))
    ensures |f.data| == f.size
  {
    hide UsedSectors, ExtentBlocks, FileEntrySize, Suitable, FileIn;
    if f !in root.files {
      SuitableForestContent(root.dirs, f);
    }
  }

  lemma {:induction false} SuitableForestContent(ds: seq<Dir>, f: File)
    requires Suitable(ds) && FileIn(f, ds)
    ensures |f.data| == f.size
    decreases ds
  {
    hide UsedSectors, ExtentBlocks, FileEntrySize, DirEntrySize;
    if f in ds[0].files {
    } else if FileIn(f, ds[0].dirs) {
      SuitableForestContent(ds[0].dirs, f);
    } else {
      SuitableForestContent(ds[1..], f);
    }
  }

  // ---------------------------------------------------------------- the whole run

  /** Filling the catalog leaves everything in order that was. */
  lemma FinishIsReady(t: Dir, start: nat, boot: Option<BootOptions>)
    requires Ready(t, start) && Finish(t, boot).Some?
    requires boot.Some? ==> t.files != [] && t.files[0].name == CATALOG_NAME && FileBlocks(t.files[0]) == 1
    ensures var r := Finish(t, boot).value;
      Ready(r, start) && ImageEnd(r) == ImageEnd(t) && PathTableSize(r) == PathTableSize(t)
  {
    hide Suitable, Laid, FilesLaid, ForestFilesLaid, GetFile, RockRidgeArea, CatalogBytes, FileEntrySize, RootLaid,
         RootFilesLaid, ImageEnd;
    if boot.Some? {
      var r := FillCatalog(t, boot.value).value;
      assert FileIndex(t.files, CATALOG_NAME) == Some(0);
      FillKeepsLayout(t, boot.value, start + 4);
      SameUse(t, r, true);
      SameFileSize(t.files[0], r.files[0]);
    }
  }

  lemma SameFileSize(f: File, g: File)
    requires f.name == g.name
    ensures FileEntrySize(f) == FileEntrySize(g)
  {
  }

  lemma LayOutKeepsCatalog(root: Dir, t: Dir, start: nat)
    requires root.files != [] && root.files[0] == EMPTY_CATALOG && t == LayOut(root, start).0
    ensures t.files != [] && t.files[0].name == CATALOG_NAME && FileBlocks(t.files[0]) == 1
  {
    hide ExtentBlocks, AssignForest, ReserveForest, RockRidgeArea, ForestBlocks;
    var numbered := AssignRoot(root.(continuation := Some(RockRidgeArea())), start + 4);
    ReserveFilesLays(root.files, numbered.1);
  }

  /** The tree as it was, without numbers and blocks, but for the catalog's content: the block that the boot image has
      in the laid-out tree `t` is in it. */
  function Completed(root: Dir, t: Dir, boot: Option<BootOptions>): Dir {
    if boot.None? || root.files == [] || GetFile(t, boot.value.path).None? then Erase(root)
    else
      var bytes := CatalogBytes(boot.value, GetFile(t, boot.value.path).value.lba);
      Erase(root.(files := root.files[0 := File(CATALOG_NAME, |bytes|, 0, bytes)]))
  }

  /** Numbering, reservation and catalog leave names, structure, sizes and contents of the whole tree as they were,
      but for the catalog. */
  lemma FinishKeepsTree(root: Dir, t: Dir, r: Dir, start: nat, boot: Option<BootOptions>)
    requires boot.Some? ==> root.files != [] && root.files[0] == EMPTY_CATALOG
    requires t == LayOut(root, start).0 && Finish(t, boot) == Some(r)
    ensures Erase(r) == Completed(root, t, boot)
  {
    hide GetFile, CatalogBytes, RockRidgeArea, AssignRoot, ReserveNode, EraseForest;
    PassesKeepTree(root.(continuation := Some(RockRidgeArea())), start + 4);
    assert Erase(t) == Erase(root);
    if boot.Some? {
      assert t.files[0].(lba := 0) == EraseFiles(t.files)[0] == EraseFiles(root.files)[0] == EMPTY_CATALOG;
      assert FileIndex(t.files, CATALOG_NAME) == Some(0);
      var bytes := CatalogBytes(boot.value, GetFile(t, boot.value.path).value.lba);
      var f := File(CATALOG_NAME, |bytes|, 0, bytes);
      assert EraseFiles(r.files) == EraseFiles(t.files)[0 := f];
      assert EraseFiles(root.files[0 := f]) == EraseFiles(root.files)[0 := f];
    }
  }

  // ---------------------------------------------------------------- what the boot path finds

  lemma {:induction false} GetDirectoryErased(ds: seq<Dir>, name: seq<byte>)
    ensures GetDirectory(EraseForest(ds), name) ==
      match GetDirectory(ds, name)
      case None => None
      case Some(c) => Some(Erase(c))
  {
    hide EraseFiles;
    if ds != [] {
      EraseStep(ds);
      GetDirectoryErased(ds[1..], name);
    }
  }

  lemma {:induction false} FindFileErased(fs: seq<File>, name: seq<byte>)
    ensures FindFile(EraseFiles(fs), name) ==
      match FindFile(fs, name)
      case None => None
      case Some(f) => Some(f.(lba := 0))
  {
    if fs != [] {
      assert EraseFiles(fs)[1..] == EraseFiles(fs[1..]);
      FindFileErased(fs[1..], name);
    }
  }

  /** Numbers and blocks make no difference to what a path finds, but for the block. */
  lemma {:induction false} LookupErased(d: Dir, path: seq<seq<byte>>)
    requires path != []
    ensures Lookup(Erase(d), path) ==
      match Lookup(d, path)
      case None => None
      case Some(f) => Some(f.(lba := 0))
    decreases |path|
  {
    hide EraseForest, EraseFiles, GetDirectory, FindFile;
    if |path| == 1 {
      FindFileErased(d.files, path[0]);
    } else {
      GetDirectoryErased(d.dirs, path[0]);
      var c := GetDirectory(d.dirs, path[0]);
      if c.Some? {
        LookupErased(c.value, path[1..]);
      }
    }
  }

  /** The file of the laid-out tree is the one of the tree that was given. */
  lemma LaidOutFile(root: Dir, t: Dir, start: nat, path: seq<byte>)
    requires t == LayOut(root, start).0
    ensures GetFile(t, path).Some? <==> GetFile(root, path).Some?
    ensures GetFile(root, path).Some? ==>
      GetFile(t, path).value.data == GetFile(root, path).value.data
      && GetFile(t, path).value.size == GetFile(root, path).value.size
  {
    hide Lookup, RockRidgeArea, AssignRoot, ReserveNode, EraseForest, EraseFiles;
    PassesKeepTree(root.(continuation := Some(RockRidgeArea())), start + 4);
    assert Erase(t) == Erase(root);
    LookupErased(t, Split(path, SLASH));
    LookupErased(root, Split(path, SLASH));
  }

  /** The run fails exactly when it should write a boot image that the path does not find. */
  lemma FinishSucceeds(root: Dir, t: Dir, start: nat, boot: Option<BootOptions>)
    requires t == LayOut(root, start).0
    requires boot.Some? ==> t.files != [] && t.files[0].name == CATALOG_NAME
    ensures Finish(t, boot).Some? <==> boot.None? || GetFile(root, boot.value.path).Some?
  {
    hide GetFile, CatalogBytes, LayOut;
    if boot.Some? {
      LaidOutFile(root, t, start, boot.value.path);
      assert FileIndex(t.files, CATALOG_NAME) == Some(0);
    }
  }

  /** A loader that takes the block from the catalog finds the content of the boot image there. */
  ghost predicate BootImageFound(data: seq<byte>, was: Dir, now: Dir, options: BootOptions) {
    now.files != [] && now.files[0].name == CATALOG_NAME && GetFile(was, options.path).Some?
    && (options.path != CATALOG_NAME ==>
          var block := Read32(LittleEndian, data, now.files[0].lba * 2048 + 40);
          var content := GetFile(was, options.path).value.data;
          content == []
          || (block * 2048 + |content| <= |data| && data[block * 2048..block * 2048 + |content|] == content))
  }

  lemma {:induction false} FileIsLow(ds: seq<Dir>, f: File)
    requires ForestRecordable(ds) && FileIn(f, ds)
    ensures f.lba < 0x1_0000_0000
    decreases ds
  {
    hide DirEntrySize, FileEntrySize;
    if f in ds[0].files {
    } else if FileIn(f, ds[0].dirs) {
      FileIsLow(ds[0].dirs, f);
    } else {
      FileIsLow(ds[1..], f);
    }
  }

  lemma LowInTree(root: Dir, start: nat, f: File)
    requires Ready(root, start) && ImageEnd(root) * 2048 < 0x8000_0000 && (f in root.files || FileIn(f, root.dirs))
    ensures f.lba < 0x1_0000_0000
  {
    hide Ready, ImageEnd, ForestRecordable, FileIn, FileEntrySize;
    ReadyIsRecordable(root, start);
    if f !in root.files {
      FileIsLow(root.dirs, f);
    }
  }

  lemma BootImageIsFound(data: seq<byte>, prefix: seq<byte>, root: Dir, t: Dir, r: Dir, start: nat,
                         options: BootOptions)
    requires t == LayOut(root, start).0 && FillCatalog(t, options) == Some(r) && ReadsBack(data, prefix, r, start)
    requires Ready(r, start) && ImageEnd(r) * 2048 < 0x8000_0000
    requires t.files != [] && t.files[0].name == CATALOG_NAME
    ensures BootImageFound(data, root, r, options)
  {
    hide ReadsBack, LayOut, Ready, ImageEnd, CatalogBytes, GetFile, FileIn;
    LaidOutFile(root, t, start, options.path);
    CatalogPointsToImage(data, prefix, t, start, options);
    assert FileIndex(t.files, CATALOG_NAME) == Some(0);
    assert FindFile(r.files, CATALOG_NAME) == Some(r.files[0]);
    if options.path != CATALOG_NAME {
      ImageStays(t, options);
      LowInTree(r, start, GetFile(t, options.path).value);
    }
  }

  /** The pass started on a root with counters at the beginning, and the two fields set after it. */
  lemma RootPass(t: Dir, lba: nat)
    ensures var (d, _, next) := AssignNode(t, 0, lba);
      AssignRoot(t, lba) == (d.(parentIndex := 1, lba := lba), next)
  {
    hide ExtentBlocks, AssignForest;
  }

  /** The smallest run meets what `CreateIso` asks for: nothing in the root, or only the boot catalog. */
  lemma SmallestImage(name: Name, withCatalog: bool, start: nat)
    requires start <= 20
    ensures
      var root := EmptyDir(name).(files := if withCatalog then [EMPTY_CATALOG] else []);
      var (t, end) := LayOut(root, start);
      SuitableRoot(root) && PathTableSize(t) <= 4096 && end == start + (if withCatalog then 7 else 6)
  {
    hide RockRidgeArea, SuitableRoot, ExtentBlocks, FileBlocks, AssignForest, ReserveForest, EntrySize;
    var root := EmptyDir(name).(files := if withCatalog then [EMPTY_CATALOG] else []);
    var r := root.(continuation := Some(RockRidgeArea()));
    SameUse(root, r, true);
    SmallestRoot(root);
    EmptyForest(2, 1, 1, start + 6);
    var numbered := AssignRoot(r, start + 4);
    assert numbered.0.dirs == [] && numbered.0.files == root.files && numbered.1 == start + 6;
    OneFileReserved(root.files, numbered.1);
    EmptyForestFiles(ReserveFiles(root.files, numbered.1).1);
    SmallTable(LayOut(root, start).0);
  }

  lemma OneFileReserved(fs: seq<File>, lba: nat)
    requires fs == [] || fs == [EMPTY_CATALOG]
    ensures ReserveFiles(fs, lba).1 == lba + |fs|
  {
    assert FileBlocks(EMPTY_CATALOG) == 1;
    hide FileBlocks;
    if fs != [] {
      assert fs[1..] == [];
    }
  }

  lemma SmallTable(t: Dir)
    requires t.dirs == [] && t.index == 1
    ensures PathTableSize(t) == 10
  {
  }

  lemma SmallestRoot(root: Dir)
    requires root.dirs == [] && (root.files == [] || root.files == [EMPTY_CATALOG])
    ensures ExtentBlocks(root) == 1 && SuitableRoot(root)
  {
    hide FileEntrySize, ExactFills, Estimate, SuitableRoot;
    ShortNamesFit(EmptyDir([]), EMPTY_CATALOG);
    var sizes := ChildSizes(root);
    assert root.files == [] ==> sizes == [];
    assert root.files != [] ==> sizes == [FileEntrySize(EMPTY_CATALOG)];
    OneRecord(sizes);
    RootSuitsExactly(root);
  }

  lemma OneRecord(sizes: seq<nat>)
    requires sizes == [] || (|sizes| == 1 && sizes[0] <= 255)
    ensures Estimate(ROOT_DOTS, sizes, |sizes|).count == 1 && ExactFills(ROOT_DOTS, sizes, |sizes|) == 0
  {
    if sizes != [] {
      assert Estimate(ROOT_DOTS, sizes, 0) == Tally(ROOT_DOTS, 1) && ExactFills(ROOT_DOTS, sizes, 0) == 0;
      assert PackTo(ROOT_DOTS, sizes, 0) == ROOT_DOTS;
      assert Count(Tally(ROOT_DOTS, 1), sizes[0]) == Tally(ROOT_DOTS + sizes[0], 1);
    }
  }

  /** System area, descriptors, and the sector behind them. */
  function TableStart(boot: Option<BootOptions>): nat {
    0x10 + 1 + (if boot.Some? then 3 else 2)
  }

  /** `create_iso` on a tree that is already read in. It fails exactly when the boot image is not in the tree; otherwise
      everything can be read back from the image, and the boot image is found through the catalog. */
  method CreateIso(w: Writer, root: DirectoryEntry, boot: Option<BootOptions>, prefix: seq<byte>, clock: Clock)
    returns (ok: bool)
    requires root.Valid() && w.Valid() && w.data == [] && w.pos == 0
    requires SuitableRoot(root.tree)
    requires boot.Some? ==> root.tree.files != [] && root.tree.files[0] == EMPTY_CATALOG
    requires |prefix| == TableStart(boot) * 2048
    requires var (t, end) := LayOut(root.tree, TableStart(boot)); PathTableSize(t) <= 4096 && end * 2048 < 0x8000_0000
    modifies root.Repr, w
    ensures root.Valid() && (ok <==> boot.None? || GetFile(old(root.tree), boot.value.path).Some?)
    ensures ok ==> Finish(LayOut(old(root.tree), TableStart(boot)).0, boot) == Some(root.tree)
    ensures ok ==> Erase(root.tree) == Completed(old(root.tree), LayOut(old(root.tree), TableStart(boot)).0, boot)
    ensures ok ==> ReadsBack(w.data, prefix, root.tree, TableStart(boot)) && WholeSectors(w.data)
    ensures ok ==> root.tree.continuation == Some(RockRidgeArea()) && root.tree.lba == (if boot.Some? then 24 else 23)
    ensures ok && boot.Some? ==> BootImageFound(w.data, old(root.tree), root.tree, boot.value)
  {
    hide ReadsBack, Erase, BootImageFound, GetFile, ExtentBlocks, Suitable, SuitableFiles, UsedSectors, AssignNode,
         RockRidgeArea, ReserveNode, AssignRoot, FillCatalog, Ready, Imageable, WholeImage, PathTableSize, ImageEnd,
         DirectoryEntry.Valid, OnlyRootIsFirst, Located, KidsBlock, TreeEnd, ExtentsEnd, TreeFileBlocks,
         TreeFilesLaid, Holds, TreeReach, SuitableRoot;
    var start := TableStart(boot);
    var currentLba := start + 4;
    LayOutIsReady(root.tree, start);
    if boot.Some? {
      LayOutKeepsCatalog(root.tree, LayOut(root.tree, start).0, start);
    }
    FinishSucceeds(root.tree, LayOut(root.tree, start).0, start, boot);
    root.SetContinuation(RockRidgeArea());
    RootPass(root.tree, currentLba);
    var counters := new Counters(0, currentLba);
    root.AssignDirectoryIdentifiers(counters);
    root.PlaceRoot(1, currentLba);
    root.ReserveFileSpace(counters);
    ok := true;
    if boot.Some? {
      ok := root.FillBootCatalog(boot.value);
      if !ok {
        return;
      }
    }
    FinishIsReady(LayOut(old(root.tree), start).0, start, boot);
    FinishKeepsTree(old(root.tree), LayOut(old(root.tree), start).0, root.tree, start, boot);
    ReadyIsImageable(root.tree, start);
    var tree := root.Clone();
    WriteImage(w, prefix, tree, start, clock);
    ImageReadsBack(w.data, prefix, tree, start, clock);
    FinishHasArea(old(root.tree), LayOut(old(root.tree), start).0, root.tree, start, boot);
    if boot.Some? {
      BootImageIsFound(w.data, prefix, old(root.tree), LayOut(old(root.tree), start).0, root.tree, start, boot.value);
    }
  }

  lemma FinishHasArea(root: Dir, t: Dir, r: Dir, start: nat, boot: Option<BootOptions>)
    requires t == LayOut(root, start).0 && Finish(t, boot) == Some(r)
    ensures r.continuation == Some(RockRidgeArea()) && r.lba == start + 4
  {
    hide RockRidgeArea, GetFile, CatalogBytes, ExtentBlocks, ReserveFiles, ReserveForest, AssignForest;
  }

  /** A file that a path leads to is in the tree: among the directory's own files when the path is one name. */
  lemma {:induction false} FoundIsInTree(d: Dir, path: seq<seq<byte>>, f: File)
    requires path != [] && Lookup(d, path) == Some(f)
    ensures |path| == 1 ==> f in d.files && f.name == path[0]
    ensures |path| > 1 ==> FileIn(f, d.dirs)
    decreases |path|
  {
    if |path| == 1 {
      FoundFile(d.files, path[0]);
    } else {
      var c := GetDirectory(d.dirs, path[0]).value;
      GetDirectoryFinds(d.dirs, path[0]);
      FoundIsInTree(c, path[1..], f);
      ChildFileIsIn(d.dirs, c, f);
    }
  }

  lemma {:induction false} FoundFile(fs: seq<File>, name: seq<byte>)
    requires FindFile(fs, name).Some?
    ensures FindFile(fs, name).value in fs && FindFile(fs, name).value.name == name
  {
    if fs[0].name != name {
      FoundFile(fs[1..], name);
    }
  }

  lemma {:induction false} ChildFileIsIn(ds: seq<Dir>, c: Dir, f: File)
    requires c in ds && (f in c.files || FileIn(f, c.dirs))
    ensures FileIn(f, ds)
    decreases |ds|
  {
    if c != ds[0] {
      ChildFileIsIn(ds[1..], c, f);
    }
  }

  lemma {:induction false} OneName(value: seq<byte>, separator: byte)
    requires |Split(value, separator)| == 1
    ensures Split(value, separator) == [value]
  {
    if value != [] {
      OneName(value[1..], separator);
      assert [value[0]] + value[1..] == value;
    }
  }

  /** Replacing the catalog keeps every other file. */
  lemma OtherFileStays(fs: seq<File>, i: nat, g: File, f: File)
    requires i < |fs| && f in fs && f != fs[i]
    ensures f in fs[i := g]
  {
    var k :| 0 <= k < |fs| && fs[k] == f;
    assert fs[i := g][k] == f;
  }

  /** The boot image is in the filled tree as well, unless it is the catalog itself. */
  lemma ImageStays(t: Dir, options: BootOptions)
    requires FillCatalog(t, options).Some? && options.path != CATALOG_NAME
    ensures var image, r := GetFile(t, options.path).value, FillCatalog(t, options).value;
      image in r.files || FileIn(image, r.dirs)
  {
    hide CatalogBytes, FileIn, Lookup;
    var image, path := GetFile(t, options.path).value, Split(options.path, SLASH);
    FoundIsInTree(t, path, image);
    if |path| == 1 {
      OneName(options.path, SLASH);
      var i := FileIndex(t.files, CATALOG_NAME).value;
      OtherFileStays(t.files, i, FillCatalog(t, options).value.files[i], image);
    }
  }

  lemma CatalogIsImage(t: Dir, options: BootOptions)
    requires FillCatalog(t, options).Some? && options.path == CATALOG_NAME
    ensures GetFile(t, options.path) == Some(t.files[FileIndex(t.files, CATALOG_NAME).value])
  {
    hide CatalogBytes, Split;
    SplitWithoutSeparator(CATALOG_NAME, SLASH);
  }

  /** From the catalog in the image a loader gets the block of the boot image and finds its content there. A boot
      path that names the catalog makes it point to itself. */
  lemma CatalogPointsToImage(data: seq<byte>, prefix: seq<byte>, t: Dir, start: nat, options: BootOptions)
    requires FillCatalog(t, options).Some? && ReadsBack(data, prefix, FillCatalog(t, options).value, start)
    ensures
      var image := GetFile(t, options.path).value;
      var catalog := FindFile(FillCatalog(t, options).value.files, CATALOG_NAME);
      && catalog.Some? && catalog.value.data == CatalogBytes(options, image.lba)
      && Read32(LittleEndian, data, catalog.value.lba * 2048 + 40) == U32(image.lba)
      && ContentReadsBack(data, if options.path == CATALOG_NAME then catalog.value else image)
      && (options.path == CATALOG_NAME ==> image.lba == catalog.value.lba)
  {
    hide CatalogBytes, GetFile, FileIn, InOrder, ReadTable, Others, EntriesFor, EntryFor, HierarchyReadsBack;
    var image := GetFile(t, options.path).value;
    var r := FillCatalog(t, options).value;
    var i := FileIndex(t.files, CATALOG_NAME).value;
    FirstIsStillFirst(t.files, i, r.files[i]);
    var f := r.files[i];
    assert ContentReadsBack(data, f);
    SliceHolds(data, f.lba * 2048, f.data);
    CatalogIsValid(options, image.lba, data, f.lba * 2048);
    if options.path == CATALOG_NAME {
      CatalogIsImage(t, options);
    } else {
      ImageStays(t, options);
    }
  }

  lemma SliceHolds(data: seq<byte>, o: nat, bytes: seq<byte>)
    requires o + |bytes| <= |data| && data[o..o + |bytes|] == bytes
    ensures Holds(data, o, bytes)
  {
    assert forall j: nat :: o <= j < o + |bytes| ==> data[j] == data[o..o + |bytes|][j - o];
  }

  lemma {:induction false} FirstIsStillFirst(fs: seq<File>, i: nat, f: File)
    requires FileIndex(fs, CATALOG_NAME) == Some(i) && f.name == CATALOG_NAME
    ensures FindFile(fs[i := f], CATALOG_NAME) == Some(f)
    decreases |fs|
  {
    if i > 0 {
      assert fs[i := f][1..] == fs[1..][i - 1 := f];
      FirstIsStillFirst(fs[1..], i - 1, f);
    }
  }
}
